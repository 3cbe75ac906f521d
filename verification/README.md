# Vajra: verified model of reconstruction, acquisition and evidence formats

This project models the parts of the Vajra forensic suite whose correctness rests on algebra, protocols or
inverse formats, and proves what they promise. It is checked with `dafny verify dfyconfig.toml`.

- **RAID reconstruction.** `Bits`, `Field256` and `Galois` build the field GF(2^8) from the shift loop that fills
  the tables up to the theorem that a table product is the polynomial product modulo 0x11D. `Reconstruction` shows
  that the three reconstructors invert the parity computations. `Layout` shows that the address mapping is a
  bijection. `RaidArray` models reads through missing members, and `DegradedRead` proves the main theorem: a
  degraded array reads what the complete one does; `Recoverability` says which losses an array of any size survives.
  `Superblock` and `Assembly` cover the on-disk superblock and show that assembly does not depend on the order of
  the drives.
- **Acquisition.** `Acquisition` models reads with retries, splitting and placeholders; `BadSector` the map of
  unreadable sectors; `RawImage` the buffered image writer. The device answers each read as it likes, and every read
  made is logged, so that what an image holds can be traced to a read of that run. `AcquisitionLoop` is the copy
  loop, both as a loop and as a step machine in which a crash may fall between any two steps or inside a write;
  `CrashResume` proves what runs leave behind from any source, `SteadyRun` what runs over fixed contents agree on,
  and `ResumedImage` when a resumed image is right; `Engine` has the two entry points.
- **Formats with an inverse.** `AntiForensic` (key splitting), `Base64`, `DataRuns`, `MftFixup` and `NtfsBitmap`
  (NTFS), `FatTable` and `LongNames` (FAT), and `AuditChain` (hash chain, anchors, independent segment check).
  `ByteFields`, `Extents`, `Arithmetic` and `Wrappers` are shared.

Loops of the source are methods with loops, its objects are classes or arrays updated in place; each is proved
equal to a specification function, and the theorems are lemmas about those functions.

## Where the code does less than it promises

These properties were found false of the code as written. The model keeps the code; the project proves when the
property holds.

- **Resuming "exactly where it left off"** (`crates/vajra-acquire/src/checkpoint.rs:8`). A checkpoint is stored
  right after a chunk was handed to the image writer, which keeps a chunk below 1 MiB in its buffer until the next
  chunk arrives. A process that dies in between has a stored checkpoint beyond the file, and the resumed run never
  writes the gap. `ResumedImages.ResumeAfterKillCorrectIff` is what can be checked before resuming a run whose
  process was killed, for the first time or again: the resumed image is right if and only if the file reaches the
  checkpoint, or the checkpoint is not yet the end and every sector of the device between the two is zero, and the
  markers agree (see the next point). `ResumedImages.ResumeCorrectIffBufferReached` is the general form, for every
  crash: what the crash left in the buffer below the checkpoint must have reached the file.
  `ResumedImages.CheckpointLeavesWindow` says when the window is open, and
  `ResumedImages.CrashAfterCheckpointLosesAChunk` is a run of 129 sectors that loses 128 of them.
- **Resuming with the configured placeholder.** Resumption uses the default strategy, whatever was configured
  (`crates/vajra-acquire/src/engine.rs:399`). `SteadyRuns.ResumptionAgreesIff` says when this does not show in the
  image, and `SteadyRuns.ResumptionChangesMarkers` is a run in which it does.
- **Acquisition of 2^32 blocks or more never ends**, because the number of remaining blocks is cast to 32 bits
  before it caps the chunk: `CrashResume.LongRangesNeverFinish`. Below that, `CrashResume.RunsAreBounded` bounds
  the number of steps.
- **A physical copy of "LBA 0 to total_blocks - 1"** (`crates/vajra-acquire/src/profile.rs:8`) of an empty device
  holds one sector, a placeholder. `AcquisitionLoop.ScopeIsDeviceIff`: it is the only such case.
- **RAID 6 with two missing data members** needs columns that differ modulo 255, which arrays of at most 257
  members guarantee. `Reconstruction.PairRecoverable` is an equivalence for two columns, and
  `Recoverability.SurvivesAllDataIff` one for whole arrays: an array survives the loss of some members whatever its
  data if and only if no row has two lost columns that coincide. `DegradedRead.AliasedPairReadable` says which bytes
  a larger array still reads correctly.
- **Long file names** with a surrogate pair across two directory entries do not survive, since each entry is
  decoded by itself: `LongNames.SplitPairIsLost` is such a name with its two entries, and
  `LongNames.LiveRoundTripIff` and `LongNames.DeletedRoundTripIff` say exactly which names survive.
- **Report segments**: consecutive numbers are not implied by the verifier's check alone:
  `AuditChains.NumbersCanGoBack` is an accepted segment numbered 5, 2, and `AuditChains.SegmentConsecutiveIff` the
  exact condition. Together with the log they are: `AuditChains.SegmentIsSlice`.
- **Signed anchors**: the signed text joins its fields with colons, and different anchors can share it
  (`AuditChains.ColonsShareTexts`). `AuditChains.SigningTextFixesCaseIff` is the exact condition on two case names:
  the text fixes case and number if and only if neither name is the other followed by a colon and a number, at the
  end or before another colon. `AuditChains.SigningTextFixesHashIff` is the one on two hashes: neither is the other
  followed by a colon and more.
- **Detection among foreign drives**: the capacity is taken from the first drive offered and the set from the first
  superblock found. `Assembly.MembersFindTheirSlotsIff` is the exact condition under which an array comes back, and
  `Assembly.EmptyDriveInFront` a list of all members, and one empty drive, from which it does not.

## Model

| member | source | states |
|---|---|---|
| Field256.TimesIsRemainder | crates/vajra-raid/src/galois.rs:3-6 | the field product is the carry-less polynomial product reduced modulo 0x11D |
| Field256.TimesXor | crates/vajra-raid/src/galois.rs:54-62 | multiplication distributes over exclusive or |
| Field256.TimesAssoc | crates/vajra-raid/src/galois.rs:54-62 | multiplication is associative |
| Field256.GPowAdd | crates/vajra-raid/src/galois.rs:83-85 | g^(m+n) = g^m * g^n for all m and n |
| Field256.GeneratorOrder | crates/vajra-raid/src/galois.rs:20-30 | the generator 2 has order exactly 255 |
| Galois.GaloisField.New | crates/vajra-raid/src/galois.rs:15-46 | the three tables hold powers, logarithms and inverses |
| Galois.GaloisField.FillPowers | crates/vajra-raid/src/galois.rs:20-32 | one pass of the shift loop fills the power table with all g^i and the logarithm table with their inverse |
| Galois.GaloisField.FillInverses | crates/vajra-raid/src/galois.rs:34-39 | a times the inverse of a is 1 for every nonzero byte |
| Galois.GaloisField.Mul | crates/vajra-raid/src/galois.rs:54-62 | the table product is the field product |
| Galois.GaloisField.Div | crates/vajra-raid/src/galois.rs:65-75 | the quotient times the divisor is the dividend |
| Galois.GaloisField.Inv | crates/vajra-raid/src/galois.rs:78-80 | the inverse, and 0 for 0 |
| Galois.GaloisField.Pow | crates/vajra-raid/src/galois.rs:83-85 | g to any power, reduced by the period |
| Galois.GaloisField.ComputePParity | crates/vajra-raid/src/galois.rs:88-95 | every output byte is the exclusive or of the blocks' bytes |
| Galois.GaloisField.ComputeQParity | crates/vajra-raid/src/galois.rs:98-106 | every output byte is the sum of the blocks' bytes weighted with g^i |
| Galois.GaloisField.ReconstructWithP | crates/vajra-raid/src/galois.rs:110-122 | the loop computes the P formula on every byte |
| Galois.GaloisField.ReconstructWithQ | crates/vajra-raid/src/galois.rs:126-147 | the loop computes the Q formula on every byte |
| Galois.GaloisField.Reconstruct2Data | crates/vajra-raid/src/galois.rs:154-193 | the loops solve the two equations on every byte |
| Reconstruction.ReconstructWithPInverts | crates/vajra-raid/src/galois.rs:108-122 | the P reconstruction returns the lost block, for any blocks and any lost column |
| Reconstruction.ReconstructWithQInverts | crates/vajra-raid/src/galois.rs:124-147 | the Q reconstruction returns the lost block, for any blocks and any lost column |
| Reconstruction.Reconstruct2DataInverts | crates/vajra-raid/src/galois.rs:149-193 | both lost blocks come back when their columns differ modulo 255 |
| Reconstruction.PairRecoverable | crates/vajra-raid/src/galois.rs:149-193 | two columns can be lost together, whatever the data, if and only if they differ modulo 255 |
| Layout.RaidGeometry.New | crates/vajra-raid/src/layout.rs:50-90 | accepts exactly power-of-two chunks that are whole sectors with enough members, and which error comes first |
| Layout.ChunkTestIsPowerOfTwo | crates/vajra-raid/src/layout.rs:59-61 | c & (c - 1) = 0 exactly for powers of two |
| Layout.RaidGeometry.LeftParityP | crates/vajra-raid/src/layout.rs:152-160 | the normalising loop gives the P member |
| Layout.ParityDistinct | crates/vajra-raid/src/layout.rs:142-170 | Q is the member after P, cyclically, so they differ |
| Layout.ParityRotates | crates/vajra-raid/src/layout.rs:142-165 | parity moves by one member from row to row, to the left from the last members or to the right from the first |
| Layout.Raid0Order | crates/vajra-raid/src/layout.rs:124-128 | without parity column c of a row lies on member c, and there are as many columns as members |
| Layout.SymmetricOrder | crates/vajra-raid/src/layout.rs:172-210 | symmetric layouts place the columns behind the parity and go round |
| Layout.AsymmetricOrder | crates/vajra-raid/src/layout.rs:172-210 | asymmetric layouts place the columns upwards |
| Layout.DataMemberSound | crates/vajra-raid/src/layout.rs:172-210 | a data column never lies on a parity member, and its member determines it, for all four layouts |
| Layout.DataMemberComplete | crates/vajra-raid/src/layout.rs:172-210 | every member of a row that is not parity holds a data column |
| Layout.MapLbaSound | crates/vajra-raid/src/layout.rs:115-139 | every array sector maps to a data slot below the member capacity, and the slot maps back to it |
| Layout.UnmapSlotSound | crates/vajra-raid/src/layout.rs:108-139 | every data slot of a row that fits within the members is the image of an array sector |
| Layout.DataSlotsAreImages | crates/vajra-raid/src/layout.rs:107-139 | the array sectors lie on exactly the sectors of members without parity in rows whose chunks lie within the member capacity: all of them and no others |
| Layout.InArrayIff | crates/vajra-raid/src/layout.rs:107-112 | a sector number is below the total exactly if its row lies within the member capacity |
| Layout.MapLbaInjective | crates/vajra-raid/src/layout.rs:115-139 | no two array sectors share a slot |
| RaidArrays.RaidArray.New | crates/vajra-raid/src/array.rs:26-99 | accepts exactly the right number of members with no more missing than the level tolerates |
| RaidArrays.RaidArray.XorOthers | crates/vajra-raid/src/array.rs:176-199 | the exclusive or of the surviving members' blocks, or the first read error |
| RaidArrays.RaidArray.DataDiskIndices | crates/vajra-raid/src/array.rs:248-261 | the recomputed list of data members is that of the address mapping |
| RaidArrays.RaidArray.RebuildFrom | crates/vajra-raid/src/array.rs:268-350 | the three-way case split rebuilds the lost column and never reaches the final error |
| RaidArrays.RaidArray.ReconstructRaid6Block | crates/vajra-raid/src/array.rs:206-351 | a block of a lost column, from exactly the members that are needed |
| RaidArrays.RaidArray.ReconstructBlock | crates/vajra-raid/src/array.rs:166-204 | the block of a missing member for every level |
| RaidArrays.RaidArray.ReadBlocks | crates/vajra-raid/src/array.rs:355-392 | the loop over chunk pieces returns all sector bytes in order, or an error exactly when a needed sector cannot be read or the range goes past the last row that lies within the member capacity |
| RaidArrays.ChunkPiece | crates/vajra-raid/src/array.rs:375-378 | a piece lies within one chunk of one member |
| DegradedRead.Raid5Byte | crates/vajra-raid/src/array.rs:176-199 | with rows that sum to zero, the sum of the other members is the lost member, for every layout |
| DegradedRead.DegradedByte | crates/vajra-raid/src/array.rs:166-351 | every byte of every column of a degraded row is that of the complete array |
| DegradedRead.SmallArraysDistinct | crates/vajra-raid/src/array.rs:302-344 | up to 257 members no two data columns coincide modulo 255 |
| DegradedRead.AliasedPairReadable | crates/vajra-raid/src/array.rs:302-344 | with two columns that coincide modulo 255 lost, both bytes read correctly if and only if the second is zero |
| DegradedRead.DegradedReadsComplete | crates/vajra-raid/src/array.rs:355-392 | a degraded RAID 5 or RAID 6 array reads what the complete array reads, for every tolerated set of missing members and every range |
| DegradedRead.DistinctReadsComplete | crates/vajra-raid/src/array.rs:302-344 | above 257 members the same for RAID 5, and for RAID 6 whenever no row has two lost columns that coincide modulo 255 |
| Recoverability.SurvivesAllDataIff | crates/vajra-raid/src/array.rs:302-344 | a RAID 6 array of any size survives these missing members for all data if and only if no row has two lost columns that coincide modulo 255 |
| DegradedRead.ReadConcatenates | crates/vajra-raid/src/array.rs:355-392 | a read is the concatenation of the two reads it is cut into, errors included |
| Superblocks.WriteMdadm12Superblock | crates/vajra-raid/src/superblock.rs:151-184 | the field-by-field writer leaves the buffer that the list of fields describes, and short buffers alone |
| Superblocks.WrittenParses | crates/vajra-raid/src/superblock.rs:26-97 | what the parser makes of any written superblock |
| Superblocks.ParseInvertsWriter | crates/vajra-raid/src/superblock.rs:26-97 | parsing inverts writing on a zeroed buffer if and only if the version is 1 and the name fits without outer zeros |
| Superblocks.ParsedIff | crates/vajra-raid/src/superblock.rs:26-66 | a buffer is accepted exactly if it has the magic bytes, version 1 and level 0, 5 or 6, and which error comes first |
| Superblocks.ParsedCodes | crates/vajra-raid/src/superblock.rs:55-75 | what the level and layout codes on disk mean, an unknown layout being left symmetric |
| Superblocks.WrittenCodes | crates/vajra-raid/src/superblock.rs:155-176 | the magic, level and layout bytes of a written superblock |
| Assembly.WrittenIsDetected | crates/vajra-raid/src/superblock.rs:114-148 | a superblock in the place of format 1.2, 1.1 or 1.0 is detected unchanged, for every block size that divides 4096, if no place looked at before has the magic number |
| Assembly.StartIsDetected | crates/vajra-raid/src/superblock.rs:128-135 | a superblock of format 1.1 at byte 0 is detected if byte 4096 has no magic number |
| Assembly.TailIsDetected | crates/vajra-raid/src/superblock.rs:137-145 | a superblock of format 1.0, 8192 bytes before the end, is detected if bytes 0 and 4096 have no magic number |
| Assembly.DetectedHasMagic | crates/vajra-raid/src/superblock.rs:114-148 | what is detected has the magic number in the place of its format, on a drive large enough for it |
| Assembly.NoMagicNotDetected | crates/vajra-raid/src/superblock.rs:114-148 | a drive without the magic number at byte 4096, at byte 0 and 8192 bytes before its end is not detected |
| Assembly.DescribedIsRead | crates/vajra-raid/src/superblock.rs:100-110 | a superblock that says what a geometry is is read as that geometry, exactly on drives of its capacity |
| Assembly.AutoDetect | crates/vajra-raid/src/array.rs:102-147 | the loops build the array that the detected superblocks describe, or report the error, and no superblock exactly if no drive has one |
| Assembly.OrderDoesNotMatter | crates/vajra-raid/src/array.rs:102-147 | geometry and members depend only on which drives are offered, not on their order or repetitions |
| Assembly.MembersFindTheirSlots | crates/vajra-raid/src/array.rs:122-146 | every offered member of a labelled array returns to its own slot, and the geometry is recovered |
| Assembly.MembersFindTheirSlotsIff | crates/vajra-raid/src/array.rs:113-146 | among foreign drives, geometry and slots of the offered members come back if and only if the first superblock found is of the set and the first drive has as many blocks as a member |
| Assembly.EmptyDriveInFront | crates/vajra-raid/src/array.rs:119-121 | all members behind an empty drive do not give the array back |
| Assembly.AssembledReadsComplete | crates/vajra-raid/src/array.rs:102-147 | an array assembled from any sufficient subset, in any order and among foreign drives that let it come back, reads what the complete array reads |
| BadSectors.BadSectorMap.RecordUnreadable | crates/vajra-acquire/src/bad_sector.rs:73-100 | the new state of the map, with a range appended or the last one lengthened |
| BadSectors.BadSectorMap.FillPlaceholder | crates/vajra-acquire/src/bad_sector.rs:130-138 | the loop fills the buffer with the repeated pattern, and with zeros for an empty one |
| BadSectors.PlaceholderPeriodic | crates/vajra-acquire/src/bad_sector.rs:130-138 | byte i of a filled buffer is byte i modulo the length of the pattern |
| BadSectors.RecordAllRefines | crates/vajra-acquire/src/bad_sector.rs:73-109 | after any ascending calls the ranges are sorted, disjoint and merged, and a sector is bad exactly if it was recorded |
| BadSectors.TotalsAreExact | crates/vajra-acquire/src/bad_sector.rs:61-100 | the totals are the size of the set of bad sectors, and that many blocks of bytes |
| BadSectors.RangeQueryIsIntersection | crates/vajra-acquire/src/bad_sector.rs:112-117 | a query over a non-empty range is true exactly if the range meets the bad sectors |
| BadSectors.MapCanonical | crates/vajra-acquire/src/bad_sector.rs:61-117 | two maps that report the same sectors are equal, ranges and totals included |
| RawImages.RawImageWriter.WriteImageBlocks | crates/vajra-image/src/raw/writer.rs:86-98 | a positional write through the buffer, with an exact count of bytes |
| RawImages.RawImageWriter.Finalize | crates/vajra-image/src/raw/writer.rs:100-113 | the buffer is written out, and the number of blocks is the length of the file |
| Acquisition.TryRead | crates/vajra-acquire/src/engine.rs:529-543 | the answer and the reads made: one, then retries until one succeeds or all have failed |
| Acquisition.ReadSingleSectorWithFallback | crates/vajra-acquire/src/engine.rs:584-616 | the sector, the map and the log of reads: bytes of the first read that succeeds, or the marker and a record after the first read and all retries failed |
| Acquisition.ReadChunkWithFallback | crates/vajra-acquire/src/engine.rs:520-581 | the sectors, the map and the log of reads of a chunk, read as a whole, marked as a whole if too small to split, or read sector by sector |
| Acquisition.ChunkGivesOutcome | crates/vajra-acquire/src/engine.rs:520-616 | each sector holds bytes that one of the logged reads returned, or is recorded bad and holds the marker after maxRetries + 1 consecutive logged reads of it failed |
| Acquisition.MarkerByte | crates/vajra-acquire/src/bad_sector.rs:130-138 | the bytes of marker sectors: the pattern running on over the chunk, or zeros |
| AcquisitionLoop.CopyLoop | crates/vajra-acquire/src/engine.rs:215-279 | the loop ends below 2^32 blocks, performs a run of the step machine, and for a fresh image hashes exactly what the file holds |
| CrashResume.RunStepKeepsInv | crates/vajra-acquire/src/engine.rs:215-279 | every copy, checkpoint and finishing step keeps the invariant of runs |
| CrashResume.SafeCrashKeepsInv | crates/vajra-acquire/src/engine.rs:368-445 | so does a crash that loses no checkpointed sector, followed by resumption |
| CrashResume.EveryRunIsFaithful | crates/vajra-acquire/src/engine.rs:215-445 | for any source, transient faults included, a finished image covers the range; a sector holds bytes that a read of this run returned, or is recorded bad and holds the marker of the strategy in use for it, and then a read of this run and all its retries failed; that strategy is the configured one below the first resumption and the default one from there on |
| CrashResume.NewRunIsFaithful | crates/vajra-acquire/src/engine.rs:215-279 | without interruption the configured retries and marker alone account for every sector |
| CrashResume.MarkedSectorFailed | crates/vajra-acquire/src/engine.rs:593-612 | a sector recorded bad was read alone once and then as often as the strategy retries, one read after the other, and all of them failed |
| CrashResume.GoodSectorRead | crates/vajra-acquire/src/engine.rs:520-604 | the bytes of any other sector are those that a read of this acquisition returned for it |
| CrashResume.ShortFaultsLeaveNoMark | crates/vajra-acquire/src/engine.rs:520-616 | a sector whose faults end within the retries of the strategy in use for it is not recorded bad and was read |
| SteadyRuns.SteadyImage | crates/vajra-acquire/src/engine.rs:520-616 | with fixed contents and faults and splitting down to sectors, image and map are those of the source with the markers of the strategies in use, whatever the chunk size |
| SteadyRuns.RunsAgree | crates/vajra-acquire/src/engine.rs:215-445 | two runs, with any strategies that split down to sectors, intervals and crashes that lose no checkpointed sector, end with the same bad ranges and totals, and with the same image if and only if they mark the bad sectors alike |
| SteadyRuns.ResumptionAgreesIff | crates/vajra-acquire/src/engine.rs:399 | a resumed run ends with the image of an uninterrupted one if and only if the configured and the default marker coincide or no sector is bad from the first resumption on |
| SteadyRuns.ResumptionChangesMarkers | crates/vajra-acquire/src/engine.rs:399 | a run over one unreadable sector that ends with another marker because it was interrupted |
| ResumedImages.ResumeCorrectIff | crates/vajra-acquire/src/engine.rs:399-445 | after any crash the resumed image is that of a plan, uninterrupted or not, if and only if the file was intact below the checkpoint and the default marker is the plan's for the bad sectors behind it |
| ResumedImages.ResumeAfterKillCorrectIff | crates/vajra-acquire/src/engine.rs:399-445 | after the process is killed at any moment, once or repeatedly without loss, the resumed image is that of an uninterrupted run if and only if the file reaches the checkpoint or the missing sectors are zero and not at the end, and the default marker does behind the checkpoint |
| ResumedImages.ResumeCorrectIffBufferReached | crates/vajra-acquire/src/engine.rs:399-445 | the same condition in terms of the write buffer at the crash |
| ResumedImages.LossNeedsBufferedChunk | crates/vajra-acquire/src/engine.rs:256-278 | only a buffered chunk that begins below the stored checkpoint can be lost |
| ResumedImages.NextCopyEndsDanger | crates/vajra-acquire/src/engine.rs:235-239 | writing the next chunk closes the window |
| ResumedImages.CheckpointLeavesWindow | crates/vajra-acquire/src/engine.rs:256-278 | right after a checkpoint a crash can lose the last chunk, and the resumed image is then right only if that chunk was zero and not the end |
| ResumedImages.CrashAfterCheckpointLosesAChunk | crates/vajra-acquire/src/engine.rs:256-278 | a concrete run that ends with a wrong image |
| CrashResume.RunsAreBounded | crates/vajra-acquire/src/engine.rs:215-279 | below 2^32 blocks a run has at most two steps a block and two more |
| CrashResume.LongRangesNeverFinish | crates/vajra-acquire/src/engine.rs:223-224 | a run with 2^32 blocks or more before it never finishes |
| CrashResume.ChunkLeavesMultiple | crates/vajra-acquire/src/engine.rs:223-224 | the cast hides whole multiples of 2^32, and the chunk is empty at exact multiples |
| AcquisitionEngine.Acquire | crates/vajra-acquire/src/engine.rs:99-365 | fails exactly for lack of space, before writing; otherwise the image holds exactly the sectors that the profile names and the device has, each in its place and accounted for by the reads of this run and the configured strategy, and the re-read hash always matches |
| AcquisitionLoop.BoundsAreScope | crates/vajra-acquire/src/profile.rs:25-41 | the bounds of a profile enclose the sectors it names that the device has |
| AcquisitionLoop.ScopeIsDeviceIff | crates/vajra-acquire/src/profile.rs:25-41 | nothing else is acquired if and only if the device has a sector or the profile does not name sector 0 |
| AcquisitionEngine.Resume | crates/vajra-acquire/src/engine.rs:368-517 | refuses an unknown operation or another device; otherwise, after a crash that loses nothing, the finished image is faithful to the reads made since the acquisition began, by the default strategy from the checkpoint on |
| AcquisitionEngine.EqualUpToCase | crates/vajra-acquire/src/engine.rs:384 | fingerprints match exactly if they are equal up to the case of letters |
| CrashResume.ResumedSettings | crates/vajra-acquire/src/engine.rs:399-437 | a resumed run retries 3 times, reads 128 sectors at once, marks with VAJRA_BAD_SECTOR and checkpoints every 10,000 blocks |
| AntiForensic.HashBlocks | crates/vajra-crypto-vol/src/cipher.rs:203-224 | the block loop computes the diffusion of the whole buffer, short last block included |
| AntiForensic.DiffusedByte | crates/vajra-crypto-vol/src/cipher.rs:207-223 | every byte of the diffusion is that of the digest of the running block counter, most significant byte first, and the buffer |
| AntiForensic.AfSplit | crates/vajra-crypto-vol/src/cipher.rs:189-233 | the stripes with their filler bytes, and the last one masking the key with the diffused buffer |
| AntiForensic.AfMerge | crates/vajra-crypto-vol/src/cipher.rs:236-292 | the key in front of the output and nothing else changed, or the error |
| AntiForensic.MergesToKeyIff | crates/vajra-crypto-vol/src/cipher.rs:189-292 | merging any data gives a key if and only if the last stripe is that key masked by what the others leave |
| AntiForensic.MergeInvertsSplit | crates/vajra-crypto-vol/src/cipher.rs:189-292 | merging inverts splitting for every key, every stripe count and every digest |
| AntiForensic.SplitThenMerge | crates/vajra-crypto-vol/src/cipher.rs:189-292 | the two methods in sequence return the key |
| Base64.Base64Encode | crates/vajra-audit/src/pki.rs:78-102 | the chunk loop computes the encoding |
| Base64.GroupIs | crates/vajra-audit/src/pki.rs:79-99 | the four characters of a group are its bytes as one number in base 64, and padding stands exactly for missing bytes |
| Base64.Base64Decode | crates/vajra-verify/src/verifier.rs:154-175 | the bit buffer computes the decoding, or rejects |
| Base64.DecodeInvertsEncode | crates/vajra-verify/src/verifier.rs:154-175 | decoding inverts encoding for every input, whatever the padding |
| Base64.DecodedIsNumber | crates/vajra-verify/src/verifier.rs:154-175 | which texts are accepted, and that the result is the whole bytes of the base-64 number |
| AuditChains.VerifyEntries | crates/vajra-audit/src/chain.rs:87-152 | accepts exactly the logs numbered from 1 whose entries name the hash before them, the first one 64 zeros, and have the hash of their text; otherwise reports the first fault; and what the report says |
| AuditChains.AppendKeepsIntact | crates/vajra-audit/src/chain.rs:33-63 | appending keeps a log intact |
| AuditChains.EveryLogIsIntact | crates/vajra-audit/src/chain.rs:33-63 | a log that was only appended to passes verification and holds every event, numbered from 1 |
| AuditChains.AuditLog.Append | crates/vajra-audit/src/chain.rs:33-63 | the new entry and table, a failed insertion changing nothing, and intactness kept |
| AuditChains.MessagesDiffer | crates/vajra-audit/src/entry.rs:51-80 | different entries hash different texts although fields are only concatenated |
| AuditChains.SameHeadSamePast | crates/vajra-audit/src/chain.rs:100-140 | two linked logs with the same last hash agree backwards, or two messages collide |
| AuditChains.VerifyAnchor | crates/vajra-audit/src/anchor.rs:122-182 | accepts exactly if the text of the fields is signed and the first entry of the number has the anchored hash, and which error comes first |
| AuditChains.DecimalIs | crates/vajra-audit/src/anchor.rs:38-42 | sequence numbers are written in decimal digits without zeros in front |
| AuditChains.AnchorPinsHistory | crates/vajra-audit/src/anchor.rs:152-175 | a verified live log matches an exported anchor if and only if it begins with the anchored log, unless two messages collide |
| AuditChains.AppendKeepsAnchor | crates/vajra-audit/src/anchor.rs:152-175 | appending never disturbs an anchor |
| AuditChains.SigningTextFixes | crates/vajra-audit/src/anchor.rs:30-44 | the signed text fixes case and number between cases that are not confusable, and the hash between hashes of which none follows the other |
| AuditChains.SigningTextFixesCaseIff | crates/vajra-audit/src/anchor.rs:30-44 | all anchors of two cases with one text agree in case and number if and only if neither case is the other followed by a colon and a number, at the end or before another colon |
| AuditChains.SigningTextFixesHashIff | crates/vajra-audit/src/anchor.rs:30-44 | all anchors of one case and number with one text agree in two hashes if and only if neither hash is the other followed by a colon and more |
| AuditChains.ColonsShareTexts | crates/vajra-audit/src/anchor.rs:30-44 | two anchors of different cases and numbers with one signed text |
| AuditChains.CheckSegment | crates/vajra-verify/src/verifier.rs:265-301 | the loop accepts exactly the segments the rules describe |
| AuditChains.SlicesAreAccepted | crates/vajra-verify/src/verifier.rs:265-301 | every slice of an intact log is accepted |
| AuditChains.SegmentIsSlice | crates/vajra-verify/src/verifier.rs:265-301 | an accepted segment ending in a hash of an intact log is the slice that ends there, unless two messages collide |
| AuditChains.SegmentConsecutiveIff | crates/vajra-verify/src/verifier.rs:272-278 | when an accepted segment has consecutive numbers |
| AuditChains.NumbersCanGoBack | crates/vajra-verify/src/verifier.rs:272-278 | an accepted segment with the numbers 5 and 2 |
| FatTables.Fat12Entry | crates/vajra-fs-fat/src/fat_table.rs:69-90 | the packed entry is the digit of the table in base 2^12 |
| FatTables.Fat16Entry | crates/vajra-fs-fat/src/fat_table.rs:53-68 | the entry is the digit of the table in base 2^16 |
| FatTables.Fat32Entry | crates/vajra-fs-fat/src/fat_table.rs:32-52 | the entry is the low 28 bits of the digit in base 2^32 |
| FatTables.EntryInside | crates/vajra-fs-fat/src/fat_table.rs:29-93 | which entries lie in the table, and the nibbles of a FAT12 entry where the product of 32 bits points |
| FatTables.NextIff | crates/vajra-fs-fat/src/fat_table.rs:29-93 | a cluster has a successor exactly if its entry is from 1 to 0xFF6, 0xFFF6 or 0xFFFFFF6 |
| FatTables.FollowChain | crates/vajra-fs-fat/src/fat_table.rs:143-165 | ends on every table; returns the whole chain exactly if it ends, and otherwise reports a cluster that comes back |
| FatTables.LoopNeverEnds | crates/vajra-fs-fat/src/fat_table.rs:143-165 | once a cluster comes back the chain has no end |
| FatTables.ClustersToExtents | crates/vajra-fs-fat/src/parser.rs:296-321 | the extents hold exactly the clusters' sectors in order, maximally merged, or the error for the first cluster below 2 |
| FatTables.SectorsDistinct | crates/vajra-fs-fat/src/bpb.rs:124-130 | different clusters share no sector |
| FatTables.LocateLiveFile | crates/vajra-fs-fat/src/parser.rs:273-278 | the location of a live file holds the sectors of its chain, each once, counted from the first sector of the data area |
| FatTables.RateDeletedChain | crates/vajra-fs-fat/src/parser.rs:234-239 | a deleted chain is rated confirmed exactly if all its clusters are free |
| FatTables.ConfirmedIffOneFreeCluster | crates/vajra-fs-fat/src/parser.rs:230-242 | the chain of a deleted file is rated confirmed if and only if it is its free first cluster alone |
| LongNames.LfnAccumulator.Feed | crates/vajra-fs-fat/src/dir_entry.rs:47-94 | the three partial reads collect the characters up to the end mark |
| LongNames.LfnAccumulator.Finalize | crates/vajra-fs-fat/src/dir_entry.rs:97-126 | the name put together by number or by reversal, and a fresh accumulator |
| LongNames.SortSorts | crates/vajra-fs-fat/src/dir_entry.rs:108-109 | the sort is ordered and a permutation |
| LongNames.SortIsStable | crates/vajra-fs-fat/src/dir_entry.rs:108-109 | parts with equal numbers keep their order |
| LongNames.LossyIs | crates/vajra-fs-fat/src/dir_entry.rs:92 | unpaired surrogates become U+FFFD and nothing else changes |
| LongNames.TidyIs | crates/vajra-fs-fat/src/dir_entry.rs:120-125 | first NUL characters, then white space are trimmed from both ends, and nothing left is no name |
| LongNames.WhiteIs | crates/vajra-fs-fat/src/dir_entry.rs:120 | the characters that are trimmed as white space |
| LongNames.LiveNameIff | crates/vajra-fs-fat/src/dir_entry.rs:47-126 | entries of a live name in any order restore it if and only if no part is cut, broken inside a surrogate pair, or trimmed |
| LongNames.DeletedNameIff | crates/vajra-fs-fat/src/dir_entry.rs:102-111 | the same for a deleted name from the order on disk alone |
| LongNames.LiveRoundTripIff | crates/vajra-fs-fat/src/dir_entry.rs:47-126 | the entries written for a live name, byte by byte, give it back if and only if no surrogate pair is split between entries and no end is trimmed or cut |
| LongNames.DeletedRoundTripIff | crates/vajra-fs-fat/src/dir_entry.rs:97-126 | the same for the entries of a deleted name, of any length |
| LongNames.SplitPairIsLost | crates/vajra-fs-fat/src/dir_entry.rs:47-126 | a name of 14 units that its two entries do not give back, live or deleted |
| MftFixups.ApplyMftFixup | crates/vajra-fs-ntfs/src/mft.rs:93-134 | the header checks in order, and the bytes after the loop, whether it succeeds or stops |
| MftFixups.AcceptedIff | crates/vajra-fs-ntfs/src/mft.rs:93-108 | which headers are accepted, by the characters FILE and BAAD and the two counts |
| MftFixups.OnlyTailsChange | crates/vajra-fs-ntfs/src/mft.rs:112-131 | no byte outside the covered sector tails changes |
| MftFixups.FixFromClear | crates/vajra-fs-ntfs/src/mft.rs:112-131 | with the array clear of the tails, success exactly if all tails match, and every tail restored |
| MftFixups.WithinSectorIsClear | crates/vajra-fs-ntfs/src/mft.rs:103-130 | an update array that ends within its sector before the tail is clear of all tails |
| MftFixups.FixupUndoesProtection | crates/vajra-fs-ntfs/src/mft.rs:93-134 | the fixup gives back the record as it was before protection |
| MftFixups.RejectedIff | crates/vajra-fs-ntfs/src/mft.rs:118-127 | a record is rejected exactly if a covered tail does not match |
| DataRuns.DecodeSigned | crates/vajra-fs-ntfs/src/mft.rs:392-401 | collecting bytes and extending the sign is two's complement of any width |
| DataRuns.DecodeDataRuns | crates/vajra-fs-ntfs/src/mft.rs:356-415 | the loop decodes run after run, or stops at a truncated run |
| DataRuns.DecodeInvertsEncode | crates/vajra-fs-ntfs/src/mft.rs:356-415 | every written runlist decodes to the extents at its prefix-summed clusters, sparse runs left out, or overflows exactly if a number does |
| DataRuns.AcceptedIsEncoded | crates/vajra-fs-ntfs/src/mft.rs:356-415 | whatever is accepted is a written runlist |
| NtfsBitmaps.NtfsBitmap.EvaluateExtentsConfidence | crates/vajra-fs-ntfs/src/bitmap.rs:34-64 | confirmed, partial or low by whether the digits of all, some or no touched clusters are 0 |
| NtfsBitmaps.FreeIsDigit | crates/vajra-fs-ntfs/src/bitmap.rs:22-31 | a cluster is free exactly if its binary digit in the little-endian number of the bitmap is 0, and none is past the end |
| NtfsBitmaps.TouchedIff | crates/vajra-fs-ntfs/src/bitmap.rs:43-48 | an extent that begins with a cluster touches the clusters that hold one of its sectors |
| NtfsBitmaps.ExtentsCoverRuns | crates/vajra-fs-ntfs/src/bitmap.rs:43-46 | converting runs to sectors and back to clusters loses nothing |
| NtfsBitmaps.RateRunlist | crates/vajra-fs-ntfs/src/bitmap.rs:34-64 | on a written runlist the confidence is that of the digits of the clusters of its runs |

## Left out

- Integer widths other than those modelled: array capacities, byte counts and sector numbers are unbounded, while the source multiplies `u32` and `u64`. The 32-bit cast of the copy loop, the 32-bit products of FAT12 offsets and chunk sizes, the 32-bit hash counter and the 64-bit numbers of runlists are modelled.
- Payloads of errors that carry only texts or positions for display; retry sleeps, progress hooks, cancellation, logging and wall-clock times.
- JSON, UUIDs, SQL and the case database beyond a record that may fail to be stored; the audit table is a list in the order of its numbers.
- SHA-256, SHA-1 and Ed25519: digests are arbitrary functions, with collisions named where they matter; a signature is an arbitrary predicate on the signed text.
- A foreign drive is one without a superblock or with that of another set; stale copies of members are not modelled.
- Member drives read deterministically: a drive has fixed unreadable sectors within one array read; transient faults are modelled for acquisition only.
- A crash is the death of the process: what was written out stays. The writer never syncs the file, so a power failure can lose flushed writes as well.
- Image files are read and written in whole sectors, and a crash leaves each buffered sector in any state; a zero block size, at which the writer fails, and the container formats of other writers are not modelled.
- Members whose block size differs from the array's sector size, and candidates of different block sizes.
- Lossy UTF-8 decoding of set names: names are the bytes on disk.
- RaidArrays.RaidArray.New: the fingerprint derived from the members' fingerprints is not modelled.
- Assembly.AutoDetect: the fingerprint of the assembled array is not modelled.
- Superblocks.WrittenParses: a name cut inside a character is kept as cut bytes, where the source puts a replacement character.
- RawImages.RawImageWriter.WriteImageBlocks: write errors and data that end inside a sector are not modelled.
- AuditChains.VerifyAnchor: decoding and checking the signature is an arbitrary predicate on the signed text.
- AcquisitionEngine.Acquire: cancellation, failing writes and database errors are not modelled.
- AcquisitionEngine.Resume: cancellation, failing writes and database errors are not modelled.
- AcquisitionLoop.CopyLoop: requires fewer than 2^32 blocks and a non-empty first chunk, because the source's loop does not end otherwise.
- Galois.GaloisField.Div: requires a divisor where the source panics.
- DataRuns.DecodeDataRuns: arithmetic overflow, at which a checked build stops, is an error result.
- FatTables.ClustersToExtents: at cluster 2^32 - 1 a checked build stops, and one that wraps around agrees with the model on chains, whose clusters are 2 or more.
- Walking FAT directories, 8.3 entries, the contiguous guess for deleted FAT files (not reached, since a chain from a cluster above 1 is never empty), and NTFS attributes other than runlists.
- Device enumeration, carving, ciphers, LUKS headers, reports, scoring and the user interface: platform code, library primitives or tuned constants without a crisp theorem.

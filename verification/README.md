# wolfBoot flash, update and ELF core in Dafny

This project models five parts of wolfBoot, the secure bootloader. Each part
is modelled as pure functions over immutable values, with methods only where
the C code loops over buffers.

- **AURIX TC3xx flash driver.** The module `AurixFlash` turns byte-level
  writes, erases and reads into the device's page (32 bytes), burst
  (256 bytes), wordline (1 KiB) and sector (16 KiB) operations.
  - Flash is a map from page index to `Erased | Programmed(bytes)`.
  - An erased page reads as the erased byte.
  - A write takes one of two paths. The direct path programs the touched
    pages; it needs every one of them erased. The read-modify-write path
    caches the sector, erases it, merges the new bytes and programs the
    sector back.
- **Interruptible three-way swap of `wolfBoot_update`.** Two modules cover it.
  - `SwapMachine` models the swap itself. BOOT and UPDATE exchange their
    contents sector by sector through SWAP. A per-sector flag
    (NEW → SWAPPING → BACKUP → UPDATED) makes the swap resumable after a
    power loss.
  - `UpdateFlash` models what surrounds the swap: the acceptance checks, the
    total size, the delta direction, the chunked sector copy, the remainder
    erase and the re-entrant final erase.
- **ELF loaders of `src/elf.c`.** The modules `ElfFormat` and `ElfLoader`
  cover identification, the header size, in-memory segment placement with
  zero fill, and the scattered store to flash.
  - Both ELF classes are modelled, little-endian.
  - The format follows the System V gABI, chapter 4 "ELF Header" and
    chapter 5 "Program Header".
- **Execute-in-place ELF update of `src/update_flash_elf.c`.** The module
  `ElfXip` models loading segments into the boot partition with tail zeroing.
  The module `ElfScatter` models the scattered hash: segment collection, the
  bubble sort, the digest comparison and the integrity error codes.
- **The host tool squashelf.** Three modules cover it.
  - `SquashRanges` parses `-r` range arguments and tests overlap and
    membership.
  - `SquashElf` models segment filtering, sorting by load address and the
    layout of the output file.
  - `SquashOutput` models the bytes of the output file and reads them back.

The following are parameters of the model, never computed:
- the hash function and the stored digest;
- the flash driver's accept/reject answer;
- the MMU callback;
- the bank bounds of the flash;
- the boot partition of the execute-in-place loader, and the width of `uintptr_t` (32 or 64 bits) on its target;
- the build options (`NVM_FLASH_WRITEONCE`, `ALLOW_DOWNGRADE`, `DELTA_UPDATES`).

## Model

| member | source | states |
|---|---|---|
| AurixFlash.PageAddr | hal/aurix_tc3xx.c:20-20 | GET_PAGE_ADDR is page-aligned, not above the address and less than one page below it |
| AurixFlash.WordlineAddr | hal/aurix_tc3xx.c:21-22 | GET_WORDLINE_ADDR is wordline-aligned, not above the address and less than one wordline below it |
| AurixFlash.SectorAddr | hal/aurix_tc3xx.c:23-24 | GET_SECTOR_ADDR is sector-aligned, not above the address and less than one sector below it |
| AurixFlash.AlignedAddrsLargest | hal/aurix_tc3xx.c:20-24 | each of the three masks yields the largest unit-aligned address not above its argument |
| AurixFlash.GetFlashType | hal/aurix_tc3xx.c:28-49 | an address in a bank's inclusive bounds is classified D-flash first, then P0, then P1; one in no bank is the panic case |
| AurixFlash.ClassifyIsMembership | hal/aurix_tc3xx.c:28-49 | with disjoint banks, the classification names a bank exactly when the address lies in that bank |
| AurixFlash.FlashIsErased | hal/aurix_tc3xx.c:86-122 | a length ≤ 0 panics; up to one page verifies the page; up to one wordline verifies the enclosing wordline; more than that verifies the whole sector |
| AurixFlash.VerifyRefines | hal/aurix_tc3xx.c:86-122 | a coarser erased verdict at an address implies every finer one there: an erased sector or wordline contains only erased pages |
| AurixFlash.ContainsErasedPage | hal/aurix_tc3xx.c:125-141 | true exactly when some page from the first to the last touched page is erased; the pages checked are consecutive and page-aligned |
| AurixFlash.ProgramPage | hal/aurix_tc3xx.c:51-84 | a misaligned address is the panic case; an aligned one programs that page with the buffer and leaves every other page as it was |
| AurixFlash.ProgramNextPage | hal/aurix_tc3xx.c:227-254 | one loop round programs the next page in order, consumes at most the rest of the data and leaves the next address page-aligned |
| AurixFlash.ProgramBytesToErasedFlash | hal/aurix_tc3xx.c:222-257 | programs every page from the first to the last touched page in ascending order, each at an aligned address; chunk sizes add up to exactly the data length; each page holds the data at its offsets and the erased byte elsewhere |
| AurixFlash.ProgrammedSpanReads | hal/aurix_tc3xx.c:222-257 | after the direct path, every byte reads as the data inside the written range and as before outside it |
| AurixFlash.CachedPage | hal/aurix_tc3xx.c:259-268 | a cached page holds what a logical read of each of its bytes returns |
| AurixFlash.CacheSector | hal/aurix_tc3xx.c:272-293 | the sector buffer is the logical image of the sector, erased pages as erased bytes; the bus is read only on non-erased pages, and on all of them |
| AurixFlash.CachePages | hal/aurix_tc3xx.c:277-292 | the page loop fills the buffer with the logical bytes of the pages from the first to the last; it touches the bus only for programmed pages |
| AurixFlash.ProgramRun | hal/aurix_tc3xx.c:188-207 | programming consecutive pages from erased state leaves each page holding its slice of the data and every other page unchanged |
| AurixFlash.WriteBurst | hal/aurix_tc3xx.c:188-207 | a burst write programs the 8 pages of the burst with their 32-byte slices and nothing else |
| AurixFlash.LoadBurst | hal/aurix_tc3xx.c:195-204 | the burst buffer is the next 256 bytes of the sector buffer, and the words are loaded in order, each once |
| AurixFlash.ProgramCachedSector | hal/aurix_tc3xx.c:181-219 | every buffer word is visited exactly once, in order; each page of the erased sector ends up holding its slice of the buffer, and no page outside the sector changes |
| AurixFlash.EraseSectors | hal/aurix_tc3xx.c:374-376 | the pages of the requested consecutive sectors become erased and every other page is unchanged |
| AurixFlash.HalFlashErase | hal/aurix_tc3xx.c:364-382 | erases the chosen number of sectors from the sector holding the address, the count computed from the signed `int` length with C's truncating division and a 32-bit `size_t`; an address in no bank is the panic case |
| AurixFlash.NegativeLengths | hal/aurix_tc3xx.c:364-368 | a negative length above -SECTOR still erases one sector as written (none under the corrected count), and -2×SECTOR wraps the count to 2^32 - 1 sectors |
| AurixFlash.CoveringIsExact | hal/aurix_tc3xx.c:364-368 | the ceiling count ends at the sector of the last byte and covers every byte of the range |
| AurixFlash.CountsDiffer | hal/aurix_tc3xx.c:368-368 | for an aligned start and a non-negative length, the count as written exceeds the ceiling count by one exactly when the length is a non-zero multiple of the sector size; the ceiling count of a negative length is zero |
| AurixFlash.AsWrittenOverErases | hal/aurix_tc3xx.c:368-368 | an erase of exactly one sector as written also erases the next sector; the ceiling count erases only the one |
| AurixFlash.AsWrittenUnderErases | hal/aurix_tc3xx.c:368-368 | a 2-byte erase straddling a sector boundary as written leaves the second sector unerased; the ceiling count erases both |
| AurixFlash.RmwReadsInside | hal/aurix_tc3xx.c:336-349 | after a read-modify-write, every byte of the sector reads as the old contents overlaid with the new data |
| AurixFlash.RmwReadsOutside | hal/aurix_tc3xx.c:336-349 | with the ceiling erase count, a read-modify-write leaves every byte outside the sector unchanged |
| AurixFlash.RmwReads | hal/aurix_tc3xx.c:336-349 | for a write that fits in its sector, every flash byte afterwards reads as the old contents overlaid with the data |
| AurixFlash.RmwWipesNextSector | hal/aurix_tc3xx.c:341-341 | the read-modify-write as written leaves every page of the following sector erased |
| AurixFlash.NeedsSectorRmw | hal/aurix_tc3xx.c:322-334 | the read-modify-write is needed exactly when some touched page is not erased |
| AurixFlash.SectorReadModifyWrite | hal/aurix_tc3xx.c:336-349 | succeeds exactly when the sector lies in a bank and the write ends inside the sector buffer, failing with BadAddress or BufferOverflow otherwise; on success the sector holds its old image overlaid with the data and the erased span follows the erase count |
| AurixFlash.HalFlashWrite | hal/aurix_tc3xx.c:313-356 | the direct path is taken exactly when every touched page is erased; either path leaves the flash reading as the old contents overlaid with the data, with the ceiling erase count and a write that fits in its sector |
| AurixFlash.FetchByte | hal/aurix_tc3xx.c:427-438 | one byte of the read loop is the logical byte, and the bus is read only on a programmed page |
| AurixFlash.ReadInPage | hal/aurix_tc3xx.c:427-438 | the inner loop reads the logical bytes up to the end of the page or of the request, whichever comes first |
| AurixFlash.ExtFlashRead | hal/aurix_tc3xx.c:412-442 | returns exactly `len` bytes (none for len ≤ 0), each the erased byte on an erased page and the stored byte otherwise; the bus is never read on an erased page |
| UpdateFlash.GetTotalSize | src/update_flash.c:958-969 | the larger of the two 32-bit sums of firmware size and header size |
| UpdateFlash.TotalSizeFacts | src/update_flash.c:958-969 | without wrap-around the total is the larger firmware size plus the header; it is symmetric; it is at most the header size exactly when both images are empty |
| UpdateFlash.NotU32 | src/update_flash.c:1047-1048 | the 32-bit complement of a value adds with it to all ones |
| UpdateFlash.CheckNewUpdate | src/update_flash.c:1020-1056 | a NEW update is accepted exactly when it is an authenticated APP image, its size passes the size rule, its header, hash and signature check out, and (without ALLOW_DOWNGRADE) fallback is 1 or the version increases; rejection is -1 |
| UpdateFlash.NoDowngrade | src/update_flash.c:1046-1055 | without ALLOW_DOWNGRADE and fallback, an update that does not increase the version is rejected |
| UpdateFlash.DeltaDirection | src/update_flash.c:1058-1093 | resumes exactly when the state is readable and the first flag is not NEW or the current version is 0; a resumed patch is inverse unless the state is UPDATING; a fresh one is inverse when the current version is not older; UPDATING is marked only for a fresh forward patch with fallback |
| UpdateFlash.DeltaResumeKeepsDirection | src/update_flash.c:1071-1092 | after a fresh forward patch with fallback marks UPDATING, a resume after the first sector keeps the forward direction |
| UpdateFlash.PlanUpdate | src/update_flash.c:1007-1096 | a total size at most the header is rejected; a NEW first flag requires the acceptance checks; otherwise only the total is checked; delta images take the patch path |
| UpdateFlash.ResumeSkipsVerification | src/update_flash.c:1018-1056 | a swap already under way is continued without re-verifying the update image |
| UpdateFlash.CopyStep | src/update_flash.c:538-545 | one chunk step keeps the copied prefix of the destination sector correct and advances by one buffer |
| UpdateFlash.CopyChunks | src/update_flash.c:537-546 | the destination sector is erased, then receives each buffer-sized chunk whose source offset is below the image end plus one buffer; the loop ends at the sector size |
| UpdateFlash.CopySector | src/update_flash.c:475-547 | a copy onto the same partition returns 0 and writes nothing; SWAP is always addressed at offset 0; otherwise the chunked copy returns the sector size |
| UpdateFlash.CopyKeepsImage | src/update_flash.c:537-546 | every destination byte inside the live image equals its source byte; bytes two buffers or more past the image end stay erased; a sector wholly inside the image is copied exactly |
| UpdateFlash.EraseRemainder | src/update_flash.c:1187-1196 | erases consecutive sectors from the loop's final sector up to, not including, the trailer reserve (one sector, two under NVM_FLASH_WRITEONCE) |
| UpdateFlash.RemainderSparesTrailer | src/update_flash.c:1187-1196 | every sector the remainder loop erases ends before the trailer reserve |
| UpdateFlash.RemainderLength | src/update_flash.c:1165-1176 | the byte count of the multi-sector erase is the distance to the trailer reserve, and wraps modulo 2^32 when the loop already passed it |
| UpdateFlash.FinalErase | src/update_flash.c:580-727 | a resume returns -1 before unlocking unless the trailer magic is present or the update state is FINAL_FLAGS; otherwise the step list saves the scratch sector only when not yet FINAL_FLAGS; it restores the scratch sector when it lies inside the image and erases it otherwise, and always clears both trailers and marks boot TESTING |
| UpdateFlash.FreshRun | src/update_flash.c:673-719 | a first final erase saves the scratch sector to SWAP, sets FINAL_FLAGS, erases the boot trailer, restores or erases the scratch sector, marks boot TESTING and erases the update trailer, in that order; each step changes only its own part of the state |
| UpdateFlash.ResumedRun | src/update_flash.c:691-719 | a re-entered final erase skips the save and the FINAL_FLAGS write and otherwise performs the same steps in the same order, each changing only its own part of the state |
| UpdateFlash.FinalEraseCompletes | src/update_flash.c:580-727 | an uninterrupted final erase leaves boot TESTING with its scratch sector restored (or erased beyond the image) |
| UpdateFlash.FinalEraseInterrupted | src/update_flash.c:654-678 | a power loss before FINAL_FLAGS leaves the boot side untouched and the next resume returns -1; from FINAL_FLAGS on, the state is committed |
| UpdateFlash.FinalEraseResumes | src/update_flash.c:654-719 | re-entry from a committed state completes the boot side exactly as the first run would have |
| UpdateFlash.ResumeInterrupted | src/update_flash.c:672-719 | any power loss during a re-entered final erase leaves the state committed |
| SwapMachine.SectorsForIsLoopBound | src/update_flash.c:1111-1111 | the swap visits sector s exactly when s times the sector size is below the total size |
| SwapMachine.TraceRuns | src/update_flash.c:1111-1162 | running the loop's operation trace gives the loop's final state |
| SwapMachine.StageRun | src/update_flash.c:1114-1143 | one sector's fall-through from its current flag completes that sector's exchange and keeps the invariant |
| SwapMachine.LoopCompletes | src/update_flash.c:1107-1162 | from any state satisfying the invariant, the loop exchanges BOOT and UPDATE in every swapped sector |
| SwapMachine.ResumeCompletes | src/update_flash.c:1107-1162 | restarting the loop from sector 0 in any resumable state completes the exchange |
| SwapMachine.FreshSwapExchanges | src/update_flash.c:1107-1162 | from all flags NEW, boot ends with the old update contents and update with the old boot contents |
| SwapMachine.StageCrash | src/update_flash.c:1114-1143 | a power loss after any step of one sector's stage, including a torn copy, leaves a resumable state |
| SwapMachine.TraceCrash | src/update_flash.c:1111-1162 | a power loss at any step of the loop, including a torn copy, leaves a resumable state |
| SwapMachine.SwapResumes | src/update_flash.c:1107-1162 | after a power loss at any step of the swap, running the loop again from sector 0 completes the exchange |
| SwapMachine.NoFlagWrites | src/update_flash.c:1118-1137 | the last sector of the partition, which holds the trailer, never gets a flag written |
| SwapMachine.StageAdvances | src/update_flash.c:1114-1143 | each flag a stage writes is on its own sector and exactly one rank above the flag it replaces |
| SwapMachine.FlagsOnlyAdvance | src/update_flash.c:1111-1162 | every flag write of the loop moves its sector's flag one rank forward, never back |
| SwapMachine.UnpersistedSectorNotResumable | src/update_flash.c:1118-1137 | with 16-byte sectors in a 64-byte partition, a swap whose fourth sector is the unpersisted trailer sector can lose power two steps into that sector and leave a state from which the rerun does not exchange the images |
| SwapMachine.AsWrittenReachesTrailer | src/update_flash.c:1027-1030 | with 16-byte sectors, a 64-byte partition and an 8-byte header, a 47-byte update passes the size check as written but not the corrected one; the swap then covers 4 sectors, the last of them the unpersisted trailer sector, and the remainder length wraps to 2^32 - 16 |
| SwapMachine.HeaderIncludedKeepsTrailer | src/update_flash.c:1027-1030 | with the header counted, every swapped sector has its flag persisted and the remainder length is exact |
| ElfFormat.FromToLE | src/update_flash_elf.c:149-154 | decoding a little-endian field gives back the encoded value |
| ElfFormat.ToFromLE | src/update_flash_elf.c:149-154 | encoding a decoded field gives back its bytes |
| ElfFormat.ClassOf | src/elf.c:73-73 | the image is ELF32 exactly when EI_CLASS is ELFCLASS32; anything else is read as ELF64 |
| ElfFormat.DecodeHeader | src/elf.c:78-90 | the file-header fields decode within their widths |
| ElfFormat.DecodePh | src/elf.c:98-103 | the program-header fields decode within their class's widths |
| ElfFormat.EncodeReadsBack | tools/squashelf/squashelf.c:838-860 | each field of an encoding, written anywhere in a file, reads back as its value |
| ElfFormat.DecodeEncodePh | tools/squashelf/squashelf.c:838-860 | a program header written anywhere in a file decodes back to itself |
| ElfLoader.ElfOpen | src/elf.c:154-165 | -1 exactly without the ELF magic; otherwise the class is ELF32 exactly when EI_CLASS is ELFCLASS32 |
| ElfLoader.ElfHdrSize | src/elf.c:167-183 | -1 exactly without the magic; otherwise a size between an ELF32 header alone and an ELF64 header with 65535 program headers |
| ElfLoader.HdrSizeRange | src/elf.c:173-181 | the header size lies between the ELF32 header alone and an ELF64 header with 65535 entries |
| ElfLoader.HdrSizeCoversTable | src/elf.c:167-183 | when the table follows the header directly, every entry lies inside the header size |
| ElfLoader.SegmentImage | src/elf.c:134-138 | a segment in memory is `file_size` image bytes from its offset followed by zeros up to `mem_size` |
| ElfLoader.PlacedIndices | src/elf.c:94-132 | exactly the PT_LOAD entries with non-zero memory size whose MMU callback succeeds, ascending |
| ElfLoader.LoadImageMmu | src/elf.c:55-151 | -1 exactly without the magic; -2 exactly when the type is not ET_EXEC; success reports the header's entry point |
| ElfLoader.LoadedPlacements | src/elf.c:94-143 | a successful load places exactly the placed entries, each once, in table order, each with its segment image |
| ElfLoader.LastPlacementWins | src/elf.c:134-138 | a byte written by a segment that no later segment overwrites keeps that segment's value |
| ElfLoader.LoadedSegmentReads | src/elf.c:134-145 | after a successful load, memory covered by a placed segment and by no later one holds the segment's file byte or zero |
| ElfLoader.PlacedSegmentReads | src/elf.c:134-138 | the same for any placement that is its program header's segment |
| ElfLoader.StoreImageScattered | src/elf.c:185-276 | -1 exactly when the image after the signed header lacks the magic; success reports the ELF entry point |
| ElfLoader.StoredSegments | src/elf.c:196-274 | a successful store makes at most one store per table entry; each is the erase-and-write of some PT_LOAD entry's `filesz` file bytes at its `paddr` plus the flash offset, and every PT_LOAD entry's store is among them |
| ElfLoader.StoresSound | src/elf.c:208-234 | every store is the store of some PT_LOAD entry |
| ElfLoader.StoresComplete | src/elf.c:208-234 | every PT_LOAD entry's store is among the stores |
| ElfScatter.HashedFromMembers | src/update_flash_elf.c:316-330 | the reference list holds exactly the PT_LOAD entries with file bytes |
| ElfScatter.Collect | src/update_flash_elf.c:316-330 | the collection never holds more than 32 segments |
| ElfScatter.CollectIsCappedFilter | src/update_flash_elf.c:316-330 | the collected segments are the first 32 PT_LOAD entries with file bytes, in table order |
| ElfScatter.CompareSwap | src/update_flash_elf.c:336-340 | one comparison orders its two neighbours and permutes nothing else |
| ElfScatter.BubblePass | src/update_flash_elf.c:335-341 | one inner pass moves the largest address of the unsorted prefix to its end and keeps a permutation |
| ElfScatter.BubbleSort | src/update_flash_elf.c:333-342 | the segments end ascending by physical address, are a permutation of the collected ones, and segments at the same address keep their collected order (the swap is on a strict `>`) |
| ElfScatter.SwapStable | src/update_flash_elf.c:336-340 | a swap of two neighbours at different addresses keeps the order of the segments at every address |
| ElfScatter.SortedStableUnique | src/update_flash_elf.c:333-342 | two arrangements that are both ascending by address and keep each address's order are equal, so the sorted order, and with it the hashed message, is determined |
| ElfScatter.HashInputAt | src/update_flash_elf.c:345-354 | each segment's bytes reach the hash after those of the segments before it and before those after it |
| ElfScatter.ComputeScatteredHash | src/update_flash_elf.c:264-366 | -1 exactly without the magic (the type is not checked); otherwise the digest of the collected segments' bytes in ascending physical-address order, segments at one address in collected order |
| ElfScatter.VerifyAsWritten | src/update_flash_elf.c:374-399 | propagates compute errors; compares only the first 32 bytes and requires a 32-byte stored digest; a 48-byte digest overruns the buffer |
| ElfScatter.WideDigestRejected | src/update_flash_elf.c:377-391 | with SHA-384 or SHA3-384, even the correct stored digest is rejected with -1 and the buffer overruns |
| ElfScatter.VerifyScatteredHash | src/update_flash_elf.c:374-399 | propagates compute errors; -1 when the stored digest has the wrong length, -2 on mismatch, 0 exactly on a match |
| ElfScatter.AsWrittenAgreesForSha256 | src/update_flash_elf.c:374-399 | for SHA-256 the check as written and the corrected one return the same and nothing overruns |
| ElfScatter.VerifyElfIntegrity | src/update_flash_elf.c:632-651 | succeeds exactly when the linear check passes and, for an ELF image, the scattered check returns 0 or -10; a failing linear check is returned as is |
| ElfScatter.IntegrityDecodes | src/update_flash_elf.c:643-647 | a failure after a passing linear check identifies the scattered-hash code: -9 for -1, -8 for -2 |
| ElfXip.ZeroChunks | src/update_flash_elf.c:206-236 | the tail clearing returns 0 or -5, and -5 only right after a rejected write |
| ElfXip.ZeroChunksWithin | src/update_flash_elf.c:216-235 | every tail write carries 1 to 64 bytes and stays inside the zeroed tail |
| ElfXip.ZeroChunksOk | src/update_flash_elf.c:216-235 | the tail clearing succeeds exactly when the driver accepts every write it made |
| ElfXip.ZeroChunksFill | src/update_flash_elf.c:216-235 | on success the writes carry exactly `mem_size - file_size` zero bytes |
| ElfXip.ZeroChunksContiguous | src/update_flash_elf.c:216-235 | on success the writes lie end to end from the end of the file bytes |
| ElfXip.LoadSegment | src/update_flash_elf.c:150-247 | -4 exactly when the segment fails the bounds test, whose sum `paddr + mem_size` wraps at the `uintptr_t` width, with no flash call; otherwise the segment is erased and its file bytes written first, -3 exactly when that write is rejected; with `filesz ≤ memsz` every call stays inside the segment |
| ElfXip.LoadFrom | src/update_flash_elf.c:145-252 | success means every written segment passed the `uintptr_t` bounds test and was erased and written; -4 means some did not pass it |
| ElfXip.LoadSegments | src/update_flash_elf.c:102-255 | -1 exactly without the magic, -2 exactly when not ET_EXEC, neither touching flash; success means every PT_LOAD segment with memory and file bytes passed the `uintptr_t` bounds test and was written |
| ElfXip.LoadStaysInBoot | src/update_flash_elf.c:181-236 | for well-formed segments (file size ≤ memory size) whose end does not wrap in `uintptr_t`, every flash call lies inside the boot partition |
| ElfXip.LoadSucceeds | src/update_flash_elf.c:145-252 | when every written segment passes the `uintptr_t` bounds test and the driver accepts every write, the load succeeds |
| ElfXip.OversizedFileEscapesBoot | src/update_flash_elf.c:181-186 | a segment whose file size exceeds its memory size passes the bounds test and is written past the partition end |
| ElfXip.WrappedSegmentEscapesBoot | src/update_flash_elf.c:150-186 | on a 32-bit target a segment whose `paddr + mem_size` wraps to 0 passes the bounds test and its erase reaches far past the partition end |
| SquashRanges.StrToULL | tools/squashelf/squashelf.c:111-123 | the converted value always fits in 64 bits |
| SquashRanges.StrToULLDigits | tools/squashelf/squashelf.c:111-123 | a plain digit string converts to its value, saturated at 2^64 - 1 |
| SquashRanges.DecimalRoundTrip | tools/squashelf/squashelf.c:114-116 | every 64-bit value printed in decimal parses back to itself |
| SquashRanges.HexRoundTrip | tools/squashelf/squashelf.c:111-113 | every 64-bit value printed with a 0x prefix parses back to itself |
| SquashRanges.StrToULLNegative | tools/squashelf/squashelf.c:114-116 | a negated decimal parses to its two's-complement wrap, as strtoull does |
| SquashRanges.ParseRange | tools/squashelf/squashelf.c:91-132 | fails without a '-'; a success has min < max, both 64-bit |
| SquashRanges.ParseRangeRoundTrip | tools/squashelf/squashelf.c:91-132 | a printed range parses back to itself exactly when min < max, and fails otherwise |
| SquashRanges.Fields | tools/squashelf/squashelf.c:168-174 | splitting at commas gives the comma count plus one fields |
| SquashRanges.TokensAreNonEmptyFields | tools/squashelf/squashelf.c:196-212 | strtok's tokens are the comma-separated fields with the empty ones dropped |
| SquashRanges.ParseRangeArgument | tools/squashelf/squashelf.c:165-230 | a success has comma count plus one ranges, each with min < max, and warns exactly when two of them overlap |
| SquashRanges.ArgumentAccepted | tools/squashelf/squashelf.c:196-221 | the argument is accepted exactly when no field is empty and every field parses; the ranges are then the parsed fields in order |
| SquashRanges.ArgumentRoundTrip | tools/squashelf/squashelf.c:165-230 | valid ranges joined with commas parse back to themselves, with the overlap warning exactly when two overlap |
| SquashRanges.OverlapIsIntersection | tools/squashelf/squashelf.c:146-149 | the overlap test is symmetric and holds exactly when some address lies in both closed ranges |
| SquashRanges.HasOverlappingRanges | tools/squashelf/squashelf.c:152-162 | true exactly when some pair of distinct positions overlaps |
| SquashRanges.IsInRanges | tools/squashelf/squashelf.c:135-143 | true exactly when some range has min ≤ addr ≤ max |
| SquashElf.ReadClass | tools/squashelf/squashelf.c:319-361 | accepts only a file with the ELF magic, class 32 or 64 and room for its header, and accepts every such file of at least 64 bytes |
| SquashElf.ReadEntry | tools/squashelf/squashelf.c:364-385 | an entry that was read has fields within its class's widths |
| SquashElf.KeptMembers | tools/squashelf/squashelf.c:543-624 | a header is kept exactly when some readable entry is PT_LOAD, has file bytes (or -z), and passes the range rule |
| SquashElf.KeptAreKept | tools/squashelf/squashelf.c:557-589 | every kept header satisfies the keep rule |
| SquashElf.GapSegmentKept | tools/squashelf/squashelf.c:572-589 | as written, a segment that starts in one range and ends in another is kept although the gap between them lies inside it |
| SquashElf.OneRangeCovers | tools/squashelf/squashelf.c:572-589 | under the corrected rule every address of a kept segment lies in the ranges |
| SquashElf.OneRangeImpliesAnyRange | tools/squashelf/squashelf.c:572-589 | the corrected rule keeps only segments the rule as written keeps |
| SquashElf.InsertSorted | tools/squashelf/squashelf.c:64-88 | inserting by load address into a sorted list keeps it sorted |
| SquashElf.SortByLma | tools/squashelf/squashelf.c:633-654 | the sort permutes the kept headers |
| SquashElf.SortSorted | tools/squashelf/squashelf.c:633-654 | the sorted headers ascend by load address |
| SquashElf.AlignUpPow2 | tools/squashelf/squashelf.c:746-748 | rounding up to a power-of-two alignment gives the least aligned offset not below the current one |
| SquashElf.LayoutLaid | tools/squashelf/squashelf.c:737-779 | each segment is placed at or after the previous one's end, from the end of the table on |
| SquashElf.LayoutAligned | tools/squashelf/squashelf.c:744-749 | every placed segment with a power-of-two alignment above 1 sits at an aligned offset |
| SquashElf.LayoutKeepsFields | tools/squashelf/squashelf.c:750-753 | the layout changes only the file offsets of the headers |
| SquashElf.ShtOffset | tools/squashelf/squashelf.c:781-787 | the section table goes at the first 8-aligned offset at or after the segments' end |
| SquashElf.OutHeader | tools/squashelf/squashelf.c:791-826 | the table follows the header; the entry count is the kept count; one section header without -n and none with it; the string index is SHN_UNDEF; other fields are copied |
| SquashElf.MakePlan | tools/squashelf/squashelf.c:495-787 | a bad header fails as such; a plan has at least one segment, the table count equals the segment count, and there is a section table exactly without -n |
| SquashElf.PlanKeepsSegments | tools/squashelf/squashelf.c:543-654 | the output segments are the kept ones, permuted and ascending by load address |
| SquashElf.NothingKeptFails | tools/squashelf/squashelf.c:627-630 | keeping no segment is a failure |
| SquashElf.PlanLayout | tools/squashelf/squashelf.c:720-787 | in the output, the first segment starts after the table, each next one after the previous one's end, all aligned, and the section table 8-aligned after the last |
| SquashOutput.HeaderBytesKept | tools/squashelf/squashelf.c:791-834 | the written header keeps the input's type, entry point and program-header entry size |
| SquashOutput.HeaderBytesUpdated | tools/squashelf/squashelf.c:791-834 | the written header reads back the new table offset, entry count and section-table fields |
| SquashOutput.HeaderBytesDecode | tools/squashelf/squashelf.c:791-834 | the written header decodes to exactly the planned header |
| SquashOutput.PhtReadsBack | tools/squashelf/squashelf.c:838-860 | each written program header reads back at its position in the table |
| SquashOutput.SegmentReadsBack | tools/squashelf/squashelf.c:864-907 | a segment's bytes in the output equal its bytes in the input, unless a later segment overlaps them |
| SquashOutput.Squash | tools/squashelf/squashelf.c:387-965 | the tool fails exactly when planning fails, with the same reason |
| SquashOutput.SquashIsEmit | tools/squashelf/squashelf.c:714-934 | a successful run writes the bytes of its plan |
| SquashOutput.SquashedHeader | tools/squashelf/squashelf.c:789-834 | the output is an ELF file of the input's class whose header is the planned one |
| SquashOutput.SquashedPht | tools/squashelf/squashelf.c:838-860 | each entry of the output's table is the planned, re-offset program header |
| SquashOutput.SquashedSegment | tools/squashelf/squashelf.c:864-907 | each output segment holds the input segment's file bytes at its new offset |
| SquashOutput.SquashedSht | tools/squashelf/squashelf.c:909-934 | without -n the output ends with an all-zero section header at the section-table offset; with -n it ends no later than the last segment |
| SquashOutput.SquashedEntries | tools/squashelf/squashelf.c:838-860 | reading the output's table with its own header gives back every planned entry |

## Left out

- `programErasedSector` (hal/aurix_tc3xx.c:144-178) is defined but never called by the driver, and is left out. `containsErasedPage` (hal/aurix_tc3xx.c:125-141) has no caller in the driver either; it is modelled as `AurixFlash.ContainsErasedPage` all the same.
- `ext_flash_write` and `ext_flash_erase` only forward to `hal_flash_write` and `hal_flash_erase`.
- The iLLD calls (`IfxFlash_*`, `IfxScuWdt_*` Endinit toggling, `waitUnbusy`) are abstract operations on the flash map. The driver's busy waits, watchdog passwords and error-status register are not modelled.
- Programming a page that is not erased is a precondition of `AurixFlash.ProgramPage`. The device would reject or corrupt such a write; the driver never issues one.
- AurixFlash.HalFlashWrite: addresses are unbounded naturals, so the wrap of `address + size - 1` at address 0 with size 0 is not modelled. In C, `getFlashTypeFromAddr(0)` (hal/aurix_tc3xx.c:317) panics first unless a bank contains address 0. If one does, `endPage` is 0xFFFFFFE0 and `page += 32` wraps back to 0, so the loop at hal/aurix_tc3xx.c:324-332 never ends while every page is erased. Negative `size` values are not represented, because the data is a sequence.
- AurixFlash.SectorReadModifyWrite: `sectorBuffer` is a `uint32_t[WOLFBOOT_SECTOR_SIZE]` (hal/aurix_tc3xx.c:26), so it holds 4×SECTOR bytes. Only a write ending past those 4×SECTOR bytes overruns it in C; for that case the model returns `BufferOverflow` instead of modelling the memory beyond the buffer. A write that runs past its sector's end but stays inside the buffer is modelled: its spilled bytes stay in the buffer and are never programmed, as the TODO at hal/aurix_tc3xx.c:315 foresees.
- AurixFlash.ReadPage32: only the length of a page read is stated. Its contents are stated through `AurixFlash.CachedPage` and `AurixFlash.CacheSector`.
- The flash geometry constants of the iLLD headers are fixed at the TC3xx PFLASH values, because those headers are not part of this model. The bank bounds are a parameter.
- Persistent partition states, sector flags and the image headers are abstract values or parameters. The stored trailer format is not modelled.
- SwapMachine.LoopCompletes: the loop bound is fixed at the start. The re-read of both headers after sector 0 (src/update_flash.c:1150-1161) is left out. It swaps the two firmware sizes back, and `UpdateFlash.TotalSizeFacts` shows the total is symmetric in them.
- Sector copies in the swap machine are whole-sector copies. `UpdateFlash.CopyKeepsImage` states when the chunked copy has that effect.
- The EXT_FLASH and EXT_ENCRYPTED branches of `wolfBoot_copy_sector` and of the final erase are left out: key, IV and decrypting reads.
- The hashes and signatures (`wolfBoot_verify_integrity`, `wolfBoot_verify_authenticity`) are boolean inputs. The digest function is a parameter.
- The delta patch engine and `wolfBoot_delta_update` are left out. Only the direction decision is modelled.
- The ELF-loading branch of `wolfBoot_swap_and_final_erase` (src/update_flash.c:609-641) and `check_and_load_boot_elf` are left out.
- The DISABLE_BACKUP direct swap is left out.
- `wolfBoot_update_elf`, `wolfBoot_update_elf_handler`, `wolfBoot_check_elf_updates`, `wolfBoot_verify_elf_boot_image` and `wolfBoot_start` are left out. They sequence partition-state calls and calls into code that is not part of this model, and that file does not build as shown.
- ElfXip.LoadSegment: only the bounds-test sum `paddr + mem_size` wraps at the `uintptr_t` width. A 64-bit field read on a 32-bit target is taken whole rather than truncated to `uintptr_t`, and the zero-fill addresses `paddr + file_size + pos` are unbounded.
- ElfXip.LoadSegments: the EXT_FLASH branch, where a segment may instead lie in the update partition, is left out.
- ElfXip.LoadSegments: the unlock/lock calls and the PowerPC cache flush are left out.
- Every ELF read is little-endian, whatever EI_DATA says. The 64-bit `GET32(ph_offset)` in src/update_flash_elf.c reads the whole field in the model. Image bytes beyond the end of the sequence read as 0.
- ElfLoader.StoreImageScattered: on ELF32 the C code truncates addresses to `unsigned long`; the model does not. The driver return codes are ignored there, as in the source.
- ElfLoader.LoadImageMmu: the target memory is a function from address to byte, with placements applied in table order. Address wrap-around is not modelled.
- squashelf's option parsing, file descriptors, `pread`/`write`/`lseek` and allocation failures are left out. The input and output files are byte sequences. A short read of segment data is the only I/O failure modelled.
- SquashOutput.SquashedEntries: requires the input's `ph_entry_size` to equal its class's program-header size. squashelf reads program headers with the input's stride, writes them at struct size and keeps the input's `ph_entry_size` in the output header (`SquashOutput.HeaderBytesKept`). For any other stride, the output's header misdescribes its own table, and reading the table back through that header is not promised. `SquashOutput.SquashedPht` still places every entry at its struct-size slot, whatever the input stride.
- SquashElf.SortByLma: `qsort` is not stable, so the order of headers with equal load addresses is unspecified. The model sorts by insertion and states only order and permutation.
- SquashElf.PlanLayout: offsets are unbounded naturals. The wrap of `size_t` and of the ELF32 offset fields is excluded by a precondition that the layout fits the class width.
- The squashelf help text says ranges exclude their maximum, but `isInRanges` includes it. The model follows the code.

## Findings

| source | as written | input that shows it | evidently intended | confidence | as-written member | corrected member |
|---|---|---|---|---|---|---|
| hal/aurix_tc3xx.c:368 | `numSectors = 1 + len / SECTOR` | `len == SECTOR` at a sector-aligned address erases two sectors. The read-modify-write path erases exactly one sector's length, so every such write also wipes the next sector. A 2-byte erase at `SECTOR - 1` erases only the first sector. | erase the sectors that cover `[address, address + len)` | not executed; high | AurixFlash.AsWrittenOverErases | AurixFlash.CoveringIsExact |
| src/update_flash.c:1027 | `update.fw_size > MAX_UPDATE_SIZE - 1` rejects | 16-byte sectors, 64-byte partition, 8-byte header, `fw_size = 47`: the update passes, but the 55-byte image reaches the trailer sector. That sector's flags are never persisted and the remainder length wraps. | the header counted in the size check, so the image stays below the trailer | not executed; medium | SwapMachine.AsWrittenReachesTrailer | SwapMachine.HeaderIncludedKeepsTrailer |
| src/update_flash_elf.c:377-394 | digest buffer, length test and comparison sized `SHA256_DIGEST_SIZE` | a SHA-384 build: the 48-byte digest overruns the 32-byte buffer, and the correct 48-byte stored digest is rejected with -1 | `WOLFBOOT_SHA_DIGEST_SIZE` for the selected hash | not executed; high | ElfScatter.WideDigestRejected | ElfScatter.VerifyScatteredHash |
| tools/squashelf/squashelf.c:578-582 | start and end each checked against the ranges on their own | ranges `0x1000-0x1FFF,0x3000-0x3FFF` and a segment at `0x1800` of size `0x2000`: kept, although `0x2000` lies in no range | keep only segments fully contained in one range, as the help text says | not executed; medium | SquashElf.GapSegmentKept | SquashElf.OneRangeCovers |

# PIM-swap in Dafny

A verification model of the two parts of PIM-swap that run on an UPMEM DPU (or its in-kernel emulation):

* the **Snappy block compressor** (`module/snappy_compress.c`) with the two windows it works through, a 512-byte
  sliding read cache over MRAM (`module/seqread.c`) and a 256-byte append window that is flushed lazily;
* the **page store**: a two-level bitmap allocator of 64-byte blocks and a direct-mapped hash index
  (`module/alloc_static.c`, `module/alloc_static.h`) under the three DPU programs that store, load and invalidate a
  page (`module/swap.c`).

Both are modelled as the code is written. Pure functions say what each operation makes of its input or state; the
classes `SeqReader`, `InBuffer`, `OutBuffer` and `Dpu` and the loops around them update arrays and fields in place, as
the C code does, and are proved equal to those functions; the results below are lemmas about the functions.

| files | contents |
|---|---|
| `Bytes`, `SnappyFormat` | bytes and words; a Snappy reader written from sections 2.1 and 2.2.1 to 2.2.3 of the "Snappy compressed format description" |
| `MatchLength`, `Elements`, `BlockSpec` | match lengths, element bytes, and what one block becomes |
| `BlockTheorems`, `BlockLimits`, `FileSpec` | round trip, output bound, block sizes, headers, the whole file |
| `MatchHistory`, `RunLimits` | which matches are taken, told without the hash table, and what a run of equal bytes costs |
| `SeqRead`, `AppendWindow`, `Compress` | the imperative compressor |
| `Bitmap`, `BlockMacros`, `SectionScan`, `Directory` | bitmaps, block numbers, the search of a section, the directory operations |
| `DirectoryInvariant`, `DirectoryTheorems` | the invariant, and exactly which operations keep it |
| `PageStore`, `StoreRuns` | the DPU programs as operations on a map from page ids to pages, and whole runs |
| `ReachableFailures` | runs from a new DPU that end in a broken invariant, a lost, overwritten or foreign page, or a transfer beyond the memory |
| `BlockAllocator`, `DpuPrograms` | the imperative page store |
| `RepairedStore`, `RepairedHeaders` | what holds, without conditions on the states, once the defects below are repaired |

## Main results

* **Compression.** A block of `n >= 15` bytes decodes to itself, on its own, for every content exactly when
  `n <= 65551` (`BlockSizeExact`). The hash table never yields a candidate outside the block, every copy repeats bytes
  that are there, and the output of a block with its header is at most `n + n/65 + 6` bytes.
* **Matches.** What a block is written as is determined by the list of positions remembered so far, without a table: every
  probe of a search, and the last two positions of every copy. A match is taken at the first probe of a fixed schedule
  that repeats the four bytes at the last remembered position with its hash, and directly behind a copy
  (`CompressedByHistory`), and only one sequence of matches fits that (`SearchedOnce`). So a block of up to 65551 bytes
  that ends in a run of equal bytes, longer than a few steps of the search, takes about three bytes in 64 for the run,
  whatever the bytes before it are (`RunShrinks`).
* **Whole files.** The imperative compressor leaves exactly the file `FileSpec.FileOf` describes: the input is cut at the
  multiples of the block size (`StreamsCut`); for all blocks of 15 to 65551 bytes the element streams in it decode to the
  input; the driver loop ends exactly when no block is shorter than 15 bytes; a header is right exactly when its window
  was flushed before its block ended or the stale bytes of the window happen to be the right ones; and a reader of the
  file finds exactly its blocks if and only if all headers are right.
* **Allocation.** Call a stretch of a section a *window* of `n` if it begins and ends with a free block, contains exactly
  `n` free blocks, and has only full bytes between them. The search of a section succeeds exactly when there is a window
  and reports the one that ends first (`ScanWindow`); what it reports is a free run exactly when every window with a full
  byte inside has a free run of `n` ending before it (`ScanUnbridged`). Lifted to the directory, this gives first fit
  (`FirstFit`) and the exact condition for an allocation to keep the invariant, told from the bitmap, the slot and the
  junk before the call (`AllocKeepsInvExactly`): the search does not start from junk, and either no section has a window,
  or the slot is empty and the first section with a window is not bridged.
* **Store.** A run is any sequence of launches, safe or not. A run that starts from the invariant stays in it exactly when
  every store is safe in the state it meets (`RunKeepsInvExactly`); then the statistics count the marked blocks, the
  stored bytes and the live pages, and no two pages share a block. If its transfers stay in memory as well, the run
  refines a map (`RunRefines`), and a load of any id returns the page last stored under it byte for byte, or misses,
  provided the run stores and invalidates no alias of that id (`PageStoreIsMap`); which ids are aliases is exact for all
  32-bit ids (`AliasesExactly`). The codec is abstract and assumed to invert itself. What a store replies is told from
  its input and the bitmap (`ReplyExactly`), the form in which it keeps a page from the codec's answer (`StoredForm`), and
  the cumulative counters of any run from its operations and replies (`RunCounts`).
* **Memory.** In every run without the uninitialised read, safe or not, all entries stay inside one section, freeing never
  meets the end of a section (`RunStaysInside`), and no transfer of any program leaves the memory of the DPU if and only
  if every store fits (`RunStaysInMemoryExactly`): it fits unless the storage area has no other place for the page than
  its very end and the transfer is as long as the blocks (`OverrunsExactly`). A page of
  4096 bytes meets this once all other room is taken, as `MemoryEndIsOverrun` shows.
* **Repairs.** With `found` reset at full bytes and `first_block` initialised, first fit holds for every bitmap with an
  exact summary (`ResetFirstFit`), an allocation keeps the invariant exactly when no section has a free run or the slot is
  empty (`ResetAllocKeepsInvExactly`), and every run that stores only under ids that hold no page, from any set of ids
  with slots of their own, and stays in memory keeps the invariant and answers like a map (`RepairedStoreIsMap`). With
  four bytes less for the directory, all of those runs stay in memory (`RepairedLayoutIsMap`). With the header patch
  applied to the open window as well, every file of blocks of 15 to 65551 bytes reads back (`RepairedRoundTrip`).

## Where the code departs from its intent

Each departure is kept in the model, shown on a concrete input or run, and given its exact condition.

* `module/alloc_static.c:210-211` skips a full byte without resetting `found`, so that a count is carried over it
  (`CarriedOver` and `CarriedCountHappens` show it, `ScanUnbridged` and `ContiguousExactly` say exactly when). The store
  then overwrites a block of a live page (`CarriedStoreOverwrites`, and on a run of seven launches
  `LivePageIsOverwritten`).
* `module/alloc_static.c:308` reads `first_block` before it is assigned when the first summary byte is full, that is, as
  soon as the first 4096 blocks are in use (`FirstSectionsFull`, `JunkHappens`).
* `module/alloc_static.c:109-112` refuses a slot that is taken, but its caller has marked the blocks and counted the page
  by then and reports success: the page is lost (`SecondStoreIsLost`, `TakenSlotLosesPage`). Block 0 passes the test, so
  the index refers to the new page exactly when the slot was empty or the first section has a window that begins at
  block 0 (`EntersExactly`).
* `module/alloc_static.c:96,101,134` keep 16 bits of the slot and of the tag, so that a load can yield the page of another
  id (`AliasYieldsForeignPage`): two ids are aliases exactly when they agree in the quotient by 377313 and in the
  remainder by 65536 (`AliasesExactly`).
* `module/snappy_compress.c:367-492` writes no element for a block under 15 bytes and takes no input, so
  `dpu_compress` never ends on such a block (`TerminatesExactly`).
* Blocks over 65551 bytes can need an offset of 65536, which is written as zero (`FarMatchFails`).
* `module/snappy_compress.c:108-124` patches MRAM only; flushing the same window later overwrites the header
  (`FileContents`, `SurvivalByWindows`, `SmallFileUnreadable`).
* `module/snappy_compress.c:239-240` uses `__builtin_ctz(0)`, which C leaves undefined. It is a parameter here: any value
  keeps the round trip, a match is cut short exactly in the case `MatchIsCommonPrefix` names (`CutShortHappens` shows it),
  and values of 24 and more make every match as long as possible.
* `module/alloc_static.h:62,102-109`: `DIRECTORY_SIZE` leaves room for the id word but not for the status word, so that the
  last four bytes of the storage area lie beyond the 64 MB of a DPU. The model has only the bytes that exist, and a
  transfer that leaves them is not performed but told as `Overrun`. Storing 15360 pages that do not compress reaches it
  (`MemoryEndIsOverrun`); `LeavesMemoryExactly` and `OverrunsExactly` say exactly when.

## Model

| member | source | states |
|---|---|---|
| Bytes.Read32Injective | module/snappy_compress.c:56-59 | comparing two combined words compares all four of their bytes |
| MatchLength.XorCountsBytes | module/snappy_compress.c:239-240 | trailing zeros of the exclusive or, divided by eight, give the first differing byte |
| MatchLength.MatchIsCommonPrefix | module/snappy_compress.c:227-243 | word-at-a-time matching never exceeds the common prefix capped at the limit, and equals it exactly outside the one case the undefined `ctz(0)` cuts short |
| MatchLength.CutShortHappens | module/snappy_compress.c:239-240 | on eight equal bytes and `ctz(0)` of 0, three matching bytes are found to be none |
| MatchLength.MatchIsExact | module/snappy_compress.c:239-240 | with `ctz(0)` of at least 24 it is always the common prefix |
| MatchLength.MatchIsNearlyCommonPrefix | module/snappy_compress.c:239-240 | whatever the undefined count is, at most three matching bytes are missed |
| Elements.LiteralDecodes | module/snappy_compress.c:252-277 | a literal element decodes to its bytes, whatever precedes and follows it |
| Elements.LiteralTagSize | module/snappy_compress.c:258-273 | a literal costs 1, 2, 3, 4 or 5 tag bytes, by length class |
| Elements.PieceParses | module/snappy_compress.c:286-304 | a copy tag carries its length exactly and its offset modulo 65536 |
| Elements.CopyDecodes | module/snappy_compress.c:313-331 | the pieces of a copy, read in order, are one overlapping copy of the whole length |
| Elements.CopyParses | module/snappy_compress.c:313-331 | the pieces are copies of 4 to 64 bytes from the same offset and add up to the length |
| Elements.PiecesExactly | module/snappy_compress.c:313-331 | the pieces are as few as 64 bytes each allow, all of 64 bytes but the last, and 60 in the one before it where fewer than four bytes would be left |
| Elements.CopySize | module/snappy_compress.c:292-303 | a copy takes three bytes for every piece, and one less if the offset is below 2048 and the last piece shorter than 12 bytes |
| Elements.CopySaves | module/snappy_compress.c:313-331 | a copy takes at least one byte less than what it stands for |
| Elements.ZeroOffsetRefused | module/snappy_compress.c:297-299 | an offset that is a multiple of 65536 gives a stream no reader accepts |
| BlockSpec.LogExact | module/snappy_compress.c:24-27 | `log2_floor` is the exponent of the largest power of two not above its argument |
| BlockSpec.TableGeometry | module/snappy_compress.c:16-16 | the WRAM left per tasklet gives 16384 entries and a hash shift of 18 |
| BlockSpec.Hash | module/snappy_compress.c:206-216 | every hash is a valid index of the table |
| BlockTheorems.RememberBelow | module/snappy_compress.c:425-426 | remembered positions stay inside the block and below the current one |
| MatchHistory.RememberExact | module/snappy_compress.c:425-426 | after a position less than 65536 bytes into the block is remembered it is the candidate of every position with its hash, and all other candidates are what they were |
| MatchHistory.LastIsLatest | module/snappy_compress.c:425-426 | the position the table stands for is the last remembered one with that hash, or the start of the block |
| MatchHistory.CandidateIsLatest | module/snappy_compress.c:425-425 | the candidate the table gives is that position |
| MatchHistory.ReachExactly | module/snappy_compress.c:400-412 | where every probe lies, in closed form: 32 steps of one byte, then 32 of two, and so on |
| MatchHistory.SearchFrom | module/snappy_compress.c:404-428 | from any of its probes on, a search ends at the first probe that repeats the four bytes at its candidate, or at the first whose successor lies beyond the limit |
| MatchHistory.CompressedByHistory | module/snappy_compress.c:371-490 | a block is the literals and copies that its own history of remembered positions determines, literal and copy loop together |
| MatchHistory.SearchedOnce | module/snappy_compress.c:371-490 | and no other sequence of matches fits the history |
| RunLimits.RunShrinks | module/snappy_compress.c:400-489 | a block that ends in a run of equal bytes takes three bytes in 64 for the run and at most 40 more, besides what is allowed for the bytes before it and the first few of the run |
| BlockTheorems.MatchRepeats | module/snappy_compress.c:428-460 | the bytes a copy covers repeat those at the candidate, overlapping or not |
| BlockTheorems.SearchCompletes | module/snappy_compress.c:400-436 | what follows from any state of the search loop decodes to the rest of the block |
| BlockTheorems.CopiesComplete | module/snappy_compress.c:448-489 | what follows from any state of the copy loop decodes to the rest of the block |
| BlockTheorems.BlockRoundTrip | module/snappy_compress.c:343-492 | a block of 15 to 65551 bytes decodes on its own to exactly its input |
| BlockLimits.BlockSize | module/snappy_compress.c:343-492 | a block of n bytes takes at most n + n/65 + 6 bytes with its header |
| BlockLimits.FarMatchFails | module/snappy_compress.c:462-463 | for every larger size there is an input whose output no reader accepts |
| BlockLimits.BlockSizeExact | module/snappy_compress.c:343-492 | all blocks of n bytes decode to their input if and only if n is at most 65551 |
| SeqRead.Alloc | module/seqread.c:24-35 | the cache address is page aligned, and the 16-bit heap top moves just past the cache, modulo 65536 |
| SeqRead.SeqReader.Seek | module/seqread.c:59-78 | after a seek the pointer stands for the target, lies in the first page of the cache, and the cache equals MRAM |
| SeqRead.SeqReader.Init | module/seqread.c:37-48 | initialising always loads the cache, whatever it held |
| SeqRead.InBuffer.constructor | module/snappy_task.c:59-64 | the reader starts at the input buffer with nothing consumed |
| SeqRead.InBuffer.CachedByte | module/seqread.c:80-84 | 256 bytes from the cache pointer on are inside the cache and are the bytes of MRAM at the current position |
| SeqRead.InBuffer.Advance | module/snappy_compress.c:35-40 | pointer, cache and position advance together |
| SeqRead.InBuffer.Window | module/snappy_compress.c:180-181 | the copy loop's source bytes are the next input bytes |
| SeqRead.InBuffer.ReadUint32 | module/snappy_compress.c:49-71 | cached and direct reads both return the word in MRAM |
| SeqRead.InBuffer.ReadTwoUint32 | module/snappy_compress.c:82-98 | both words, in order |
| AppendWindow.OutBuffer.constructor | module/snappy_task.c:69-73 | an empty output over a window of unspecified bytes |
| AppendWindow.OutBuffer.ReserveHeader | module/snappy_compress.c:356-358 | four positions are skipped and keep what the window held there |
| AppendWindow.ReservedBytes | module/snappy_compress.c:356-358 | also when they run into the next window |
| AppendWindow.OutBuffer.FlushWindow | module/snappy_compress.c:140-146 | flushing keeps the logical contents |
| AppendWindow.OutBuffer.Write | module/snappy_compress.c:134-156 | the logical contents grow by exactly the bytes written, across any number of windows |
| AppendWindow.WindowIsUnique | module/snappy_compress.c:136-140 | which window is open depends only on how much has been written |
| AppendWindow.OutBuffer.WriteCompressedLength | module/snappy_compress.c:108-124 | four bytes of the logical contents change, and only those below the open window |
| AppendWindow.OutBuffer.Finish | module/snappy_compress.c:523-533 | MRAM then holds the logical contents, byte for byte |
| Compress.FindMatch | module/snappy_compress.c:227-243 | the loop computes `FindMatchLength` from cached and direct reads |
| Compress.CopyOutput | module/snappy_compress.c:166-190 | exactly the next `len` input bytes are appended, and the reader moves past them |
| Compress.FillLengthBytes | module/snappy_compress.c:264-269 | the length bytes of a long literal |
| Compress.LiteralTagBytes | module/snappy_compress.c:255-273 | the tag array of a literal |
| Compress.WriteLiteral | module/snappy_compress.c:252-277 | appends the literal element of the next `len` bytes |
| Compress.WriteCopyPiece | module/snappy_compress.c:286-304 | appends one copy tag |
| Compress.WriteCopy | module/snappy_compress.c:313-331 | appends the pieces of a copy |
| Compress.Probe | module/snappy_compress.c:424-428 | candidate, table update and comparison of one probe |
| Compress.FindCandidate | module/snappy_compress.c:400-428 | the skipping search finds the probe `Block.Search` finds, or runs into the end of the block |
| Compress.CopyMatch | module/snappy_compress.c:456-463 | one copy element, with the reader past the match |
| Compress.LookAhead | module/snappy_compress.c:480-489 | the two table updates after a copy and the next candidate |
| Compress.FollowCopies | module/snappy_compress.c:448-489 | the copy loop writes what `Block.Copies` says and stops where it stops |
| Compress.WriteRemainder | module/snappy_compress.c:472-473 | what is left becomes one literal, if anything is left |
| Compress.WriteRound | module/snappy_compress.c:371-490 | one outer iteration, with `input->curr == next_emit` before and after it |
| Compress.WriteElements | module/snappy_compress.c:371-490 | the whole element stream of a block |
| Compress.CompressBlock | module/snappy_compress.c:343-492 | header space, elements and header patch; nothing but header space under 15 bytes |
| Compress.ClearTable | module/snappy_compress.c:514-514 | the table is all zeros |
| Compress.DpuCompress | module/snappy_compress.c:496-536 | the output buffer holds exactly the file of `FileSpec.FileOf` and all input has been read |
| FileSpec.TerminatesExactly | module/snappy_compress.c:505-521 | the driver loop ends if and only if no block is shorter than 15 bytes |
| FileSpec.StreamsCut | module/snappy_compress.c:508-521 | there are as many blocks as the block size goes into the length, rounded up, and block i holds the bytes from i to i + 1 times the block size, or to the end |
| FileSpec.StreamsDecode | module/snappy_compress.c:508-521 | decoding block by block and joining gives back the input |
| FileSpec.FileSize | module/snappy_compress.c:523-525 | the blocks with their headers fit the capacity a caller can compute from the input length; a file is exactly as long as they are |
| FileSpec.HeaderSurvives | module/snappy_compress.c:419-419 | a header is right in the logical output if and only if it survives |
| FileSpec.FileContents | module/snappy_compress.c:108-175 | all element streams are in the final file, and its headers are right if and only if each survives the later flush of its window |
| FileSpec.SurvivalByWindows | module/snappy_compress.c:140-144 | a header survives if and only if each of its bytes lies in an earlier window than the end of its block or has the right stale value, headers that straddle two windows included |
| FileSpec.SplitsExactly | module/snappy_compress.c:108-124 | a reader of the container finds exactly the blocks that were written if and only if every header is right |
| FileSpec.FileRoundTrip | module/snappy_compress.c:496-536 | all of this together: the blocks are found in the file if and only if all headers survive, and then the file decodes to the input |
| FileSpec.SmallFileUnreadable | module/snappy_compress.c:419-419 | 15 zero bytes give a file that cannot be read back |
| RepairedHeaders.AddPatchedBytes | module/snappy_compress.c:108-124 | if the patch also went into the open window, every header would be right, however the block lies over the windows |
| RepairedHeaders.RepairedRoundTrip | module/snappy_compress.c:496-536 | and every file would decode to exactly the input, whatever the window held at the start |
| Bitmap.ClearUndoesSet | module/alloc_static.c:171-185 | clearing forwards undoes marking backwards byte for byte |
| Bitmap.CountOfSetRun | module/alloc_static.c:330-330 | marking a free run raises the number of marked blocks by its length |
| SectionScan.ScanWindow | module/alloc_static.c:208-239 | the search succeeds if and only if the section has a window of n free blocks, and reports the one that ends first |
| SectionScan.ScanUnbridged | module/alloc_static.c:210-211 | what it reports has no gap if and only if every window with a full byte inside has a free run of n blocks ending before it |
| SectionScan.ScanSound | module/alloc_static.c:208-239 | the report is a free run if and only if the search stopped n - 1 blocks after the remembered one, otherwise it has a block in use |
| SectionScan.ScanComplete | module/alloc_static.c:208-239 | a section with a free run is never reported as failing, and nothing after that run is reported |
| SectionScan.ClosedIsUnbridged | module/alloc_static.c:210-211 | no full byte behind an open one, or a request for one block, rules the failure out |
| SectionScan.ScanClosed | module/alloc_static.c:210-211 | and then the result is a free run |
| SectionScan.CarriedOver | module/alloc_static.c:210-211 | bytes 0x7F, 0xFF, 0x00 and two blocks: blocks 7 and 8 are reported |
| BlockMacros.BlockParts | module/alloc_static.h:89-94 | making a block number and taking it apart are inverse to each other for all 983040 blocks |
| BlockMacros.SectionParts | module/alloc_static.h:82-84 | the same for the sections and the bytes and bits of the summary |
| BlockMacros.MacrosAreArithmetic | module/alloc_static.h:92-94 | as integers, section, entry and bit number are the quotients and remainders by which the model addresses the bitmap |
| BlockMacros.MadeArithmetically | module/alloc_static.h:89-90 | and the number made from them is the model's block number |
| BlockMacros.AddressIsShift | module/alloc_static.h:96-96 | a block number shifted by six is the address the model gives the block, and shifting back gives the block |
| Directory.Blocks | module/alloc_static.c:285-285 | a page of 1 to 4096 bytes takes the 1 to 64 blocks that just hold it |
| DirectoryInvariant.UsedInSection | module/alloc_static.c:203-205 | a bit of the section that is read into WRAM is the bit of the block with that number in the whole bitmap |
| DirectoryInvariant.UnmarkedBits | module/alloc_static.c:171-185 | of the blocks to be freed exactly those in the section of the first become free, also where the section ends before the run |
| DirectoryInvariant.EmptyInv | module/dpu.c:88-88 | zeroed memory satisfies the invariant |
| DirectoryTheorems.PickIsFirst | module/alloc_static.c:289-318 | the search fails if and only if no section has a window, and otherwise stops in the first that has one |
| DirectoryTheorems.ContiguousExactly | module/alloc_static.c:210-211 | it carries no count over a full byte if and only if the first section with a window is not bridged |
| DirectoryTheorems.FirstFit | module/alloc_static.c:289-318 | on failure no section has a free run; what is reported is a free run if and only if the bitmap is uncarried, and no free run lies below it |
| DirectoryTheorems.ClosedIsUncarried | module/alloc_static.c:210-211 | two simpler conditions that each make the bitmap uncarried |
| DirectoryTheorems.AllocEffect | module/alloc_static.c:275-339 | a safe allocation that finds room marks a free run inside one section, keeps the summary exact and enters the page in its empty slot |
| DirectoryTheorems.AllocFinds | module/alloc_static.c:289-318 | an allocation reports a block if and only if it reads the uninitialised one or a section has a window |
| DirectoryTheorems.PicksZeroExactly | module/alloc_static.c:109-109 | the search reports block 0 if and only if the first section has a window that begins there |
| DirectoryTheorems.PicksLastExactly | module/alloc_static.c:289-318 | it reports the last n blocks if and only if they are free and every window ends with the last block |
| DirectoryTheorems.EntersExactly | module/alloc_static.c:109-118 | the index refers to the new page if and only if the slot was empty or the first section has a window that begins at block 0, and is otherwise unchanged |
| DirectoryTheorems.TakenSlotBreaks | module/alloc_static.c:109-112 | allocating for a slot that is taken breaks the invariant whenever there is room |
| DirectoryTheorems.JunkBreaks | module/alloc_static.c:308-309 | so does starting from an uninitialised first block: it is reported and entered, and no bit is marked |
| DirectoryTheorems.CarriedCountBreaks | module/alloc_static.c:210-211 | so does a carried count: it names a block that the new page shares with the page in another slot |
| DirectoryTheorems.AllocKeepsInvExactly | module/alloc_static.c:275-339 | an allocation keeps the invariant if and only if a condition on bitmap, slot and junk holds before it |
| DirectoryTheorems.InvalidateKeepsInv | module/swap.c:77-98 | invalidating any id keeps the invariant and removes that entry only |
| DirectoryTheorems.InvalidateUndoesAlloc | module/swap.c:77-98 | allocate then invalidate restores both bitmaps, the live entries and the current counters |
| DirectoryTheorems.AllocInBounds | module/alloc_static.c:208-239 | even a run that is not free lies inside one section of the storage area |
| DirectoryTheorems.AllocConfined | module/alloc_static.c:275-339 | any allocation that reads no junk keeps every entry inside one section and the summary exact, safe or not |
| DirectoryTheorems.InvalidateConfined | module/swap.c:77-98 | and so does every invalidation |
| PageStore.LeavesMemoryExactly | module/alloc_static.h:62-62 | a page's transfer ends beyond the 64 MB if and only if its blocks are the last ones and it is as long as they are |
| PageStore.OverrunsExactly | module/swap.c:255-255 | a store leaves the memory if and only if the bitmap has no other place for it than the end and the transfer is as long as its blocks |
| PageStore.WriteHere | module/swap.c:255-255 | the 8-byte-aligned write leaves the page readable at its blocks |
| PageStore.ApartFromFree | module/swap.c:255-255 | a live page's blocks lie on one side of any free run |
| PageStore.LoadFinds | module/swap.c:100-164 | loading answers with what the map holds under the id |
| PageStore.LoadExactly | module/swap.c:100-164 | in any state, a load yields a page if and only if the slot of the id has its tag and bytes inside the memory that are the page, or that the codec decompresses to it |
| PageStore.ReplyExactly | module/swap.c:169-269 | each reply of a store if and only if a condition on its input and the bitmap holds before it; a refused store leaves bitmaps, index and storage alone |
| PageStore.StoredForm | module/swap.c:222-255 | a page is kept compressed if and only if the codec makes at most 4032 bytes of it: length, tag, counters and the bytes in storage |
| PageStore.StoreRefines | module/swap.c:169-269 | a safe store puts exactly this page under its id, or changes nothing the map can see |
| PageStore.StoreRefinesExactly | module/swap.c:169-269 | a store stays in memory and leaves an invariant directory with a page for every slot in use if and only if it was safe and fits |
| PageStore.LoadAfterStore | module/swap.c:100-269 | what every later load answers: the page for the aliases of its id, nothing for other ids of the slot, the same as before for the rest |
| PageStore.TakenSlotLosesPage | module/alloc_static.c:109-112 | a store into a taken slot replies success if it fits and changes the answer of no load |
| PageStore.CarriedStoreOverwrites | module/alloc_static.c:210-211 | a store with a carried count replies success and overwrites a block of the live page in another slot |
| PageStore.DropRefines | module/swap.c:77-98 | an invalidation removes exactly the page with this id |
| StoreRuns.RunKeepsInvExactly | module/swap.c:77-269 | a run from an invariant state stays invariant, statistics included, if and only if each of its stores is safe in the state it meets |
| StoreRuns.RunKeepsInv | module/swap.c:77-269 | the induction behind it, from the first state alone |
| StoreRuns.RunCounts | module/alloc_static.c:326-381 | over every run on a new DPU, safe or not, allocations count the stores that were given blocks, frees the invalidations that found their id and the pages that do not compress those with a bad codec answer, each modulo its width |
| StoreRuns.RunStaysInside | module/swap.c:77-269 | in a run that reads no junk, safe or not, entries stay inside sections, stores overrun if and only if they do not fit, and while all fit no transfer leaves the memory |
| StoreRuns.RunStaysInMemoryExactly | module/swap.c:77-269 | in such a run no transfer leaves the memory if and only if every store fits |
| StoreRuns.RunRefines | module/swap.c:77-269 | the store refines the map over every run with safe stores that stay in memory, and every load along it answers from the map |
| StoreRuns.PageStoreIsMap | module/swap.c:77-269 | from a new DPU, over such runs, a load returns the page last stored under that id, and misses if there is none, for any id whose aliases are not stored or invalidated |
| StoreRuns.SmallIdsSpare | module/alloc_static.c:94-150 | ids below 65536 have no aliases among themselves |
| StoreRuns.AliasesExactly | module/alloc_static.c:94-150 | all 32-bit ids: the index confuses two if and only if they agree in the quotient by 377313 and in the remainder by 65536 |
| StoreRuns.SlotExactly | module/alloc_static.c:101-101 | the slot of every id, written as a multiple of 377313, a multiple of 65536 and the rest |
| ReachableFailures.PrefixAlloc | module/alloc_static.c:275-339 | behind a prefix of used blocks requests are met in order |
| ReachableFailures.CarriedCountHappens | module/alloc_static.c:210-211 | three safe allocations and an invalidation lead to one that reports block 7 although block 8 is in use |
| ReachableFailures.LivePageIsOverwritten | module/alloc_static.c:210-211 | the same on the store, with a concrete codec: a page that could be loaded is gone after another page was stored |
| ReachableFailures.MemoryEndIsOverrun | module/alloc_static.h:102-109 | after 15359 safe stores the next one, safe too, ends four bytes beyond the memory, and the one after it finds no space |
| ReachableFailures.FirstSectionsFull | module/alloc_static.c:296-296 | the first summary byte is full exactly while the first 4096 blocks are in use |
| ReachableFailures.JunkHappens | module/alloc_static.c:308-309 | after 64 safe stores every junk but UINT_MAX breaks the invariant |
| ReachableFailures.SecondStoreIsLost | module/alloc_static.c:109-112 | on a new DPU two pages stored under one id both reply success, and the load returns the first |
| ReachableFailures.AliasYieldsForeignPage | module/alloc_static.c:94-150 | on a new DPU a page stored under one id is returned for an alias of it |
| RepairedStore.ResetScanExactly | module/alloc_static.c:208-239 | with the counter reset at full bytes the search of a section finds its lowest free run, or none if there is none |
| RepairedStore.ResetFirstFit | module/alloc_static.c:289-318 | and that of the directory the lowest one inside a section, for every bitmap with an exact summary |
| RepairedStore.ResetAllocKeepsInvExactly | module/alloc_static.c:275-339 | with both repairs an allocation keeps the invariant if and only if no section has a free run of that length or the slot is empty |
| RepairedStore.ResetOverrunsExactly | module/swap.c:255-255 | and a store leaves the memory if and only if the lowest free run is the last one and the transfer is as long as it |
| RepairedStore.RepairedStoreIsMap | module/swap.c:77-269 | with both repairs every run of stores under absent ids, loads and invalidations that stays in memory keeps the invariant and answers like a map of the ids |
| RepairedStore.RepairedLayoutIsMap | module/alloc_static.h:62-62 | and with four bytes less for the directory every such run does |
| RepairedStore.SmallIdsSpread | module/alloc_static.c:94-150 | the ids below 65536 have slots of their own |
| BlockAllocator.ScanByte | module/alloc_static.c:215-231 | the bit loop over one byte |
| BlockAllocator.ScanSection | module/alloc_static.c:208-239 | the two search loops compute `Scan` |
| BlockAllocator.MarkBackwards | module/alloc_static.c:241-254 | marks exactly the run that ends at the given block, and notices when the section becomes full |
| BlockAllocator.ClearForwards | module/alloc_static.c:171-186 | clears the run, and gives up if and only if it would leave the section |
| BlockAllocator.AllFull | module/alloc_static.c:264-269 | is every byte of the section full |
| DpuPrograms.Dpu.constructor | module/dpu.c:87-88 | a new DPU has the empty directory and zeroed storage |
| DpuPrograms.Dpu.InsertIndex | module/alloc_static.c:94-122 | the table afterwards is `Insert` of the table before |
| DpuPrograms.Dpu.LookupIndex | module/alloc_static.c:127-150 | found exactly when `Lookup` finds, with its address and length |
| DpuPrograms.Dpu.FindFreeBlocks | module/alloc_static.c:191-273 | UINT_MAX and no change, or the marked run and whether its section is full |
| DpuPrograms.Dpu.FreeBlocks | module/alloc_static.c:153-189 | the second level afterwards, and when the error message comes |
| DpuPrograms.Dpu.SearchByte | module/alloc_static.c:296-306 | the sections of one summary byte, in order |
| DpuPrograms.Dpu.SearchSections | module/alloc_static.c:294-310 | the section loops stop where `Pick` stops, or at once on junk |
| DpuPrograms.PickSkipsByte | module/alloc_static.c:296-296 | skipping a full summary byte passes over eight full sections |
| DpuPrograms.Dpu.AllocPage | module/alloc_static.c:275-339 | directory and result are `Alloc` of the directory before |
| DpuPrograms.Dpu.ClearSummary | module/alloc_static.c:364-373 | the section's summary bit is clear, nothing else changes |
| DpuPrograms.Dpu.FreePage | module/alloc_static.c:341-382 | the directory is `Free` of the directory before, and the error branch of `free_blocks_l2` is not taken while entries are confined to sections |
| DpuPrograms.Dpu.CompressPage | module/swap.c:222-242 | the bytes to store, and the count of pages that do not compress |
| DpuPrograms.Dpu.CompressMain | module/swap.c:169-269 | machine, reply, return value and status word are those of `Store` |
| DpuPrograms.Dpu.DecompressMain | module/swap.c:100-164 | return value and transfer page are those of `Load`; nothing else changes |
| DpuPrograms.Dpu.InvalidateMain | module/swap.c:77-98 | the machine is `Drop` of the machine before |

## Left out

- CompressMain: does not say what return value, status word and memory are after a transfer that leaves the memory of the DPU (`Overrun`), because the code gives that no meaning; `RunStaysInMemoryExactly` says when there is none.
- DecompressMain: likewise for reading beyond that memory, which only entries left by such a store, or by the uninitialised read, ask for.
- FreePage: is for entries that begin inside the storage area, because others address memory behind the bitmap; `RunStaysInside` shows that runs without the uninitialised read produce no others.
- InvalidateMain: the same.
- AllocPage: is for lengths of 1 to 4096 bytes, the only ones the store program passes on.
- DpuCompress: is for inputs on which the driver loop ends, as `TerminatesExactly` characterises them (for a single short block see `CompressBlock`), and for an output buffer with 16 bytes more than the file needs, because the code never checks the room it has and the header patch and the last flush touch whole aligned words; `FileSize` bounds what is needed by the input length.
- FileRoundTrip: does not claim that a file with a lost header can never decode to the input by luck, from other blocks than those written; that its blocks are not found is exact, and `SmallFileUnreadable` is one file that cannot be read.
- Aliasing of the compressor's memory: input MRAM is a constant and the output buffer, the append window, the cache and the hash table are separate arrays, as the set-up in `module/snappy_task.c` makes them.
- WRAM pointers of the reader are addresses and array indices; the emulator's mixing of offsets and host pointers is not modelled.
- `mem_alloc`: the emulator's never fails; the programs' error branches are driven by a parameter.
- LZO and the kernel crypto interface: an abstract codec with a positive output length and the assumption that it inverts itself.
- The host frontswap layer (`module/swap.c` from line 271), DPU life cycle, several DPUs and tasklets, transfers, and the B-tree directory stub.
- Hash quality: any hash gives a correct stream, and nothing is said about which words share one; how well other inputs than runs of equal bytes compress.
- Dump and print functions, scripts, kernel and buildroot configuration.

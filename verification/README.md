# Verification of the engine's core libraries

A Dafny model of the five stateful libraries of the engine, with proofs of what they are for.

- **LZ4 block codec** (`src/lz4.c`, the 64-bit little-endian configuration). `Lz4Format` defines the block
  format once: a grammar (`Parse`), a meaning (`Meaning`, the byte-at-a-time match copy) and the
  end-of-block rules (`Conforms`). `Lz4Decoder` is the optimised decoder with its fast loop, safe loop,
  shortcut and wild copies, over arrays; `Lz4Reference` the plain decoder. `Lz4Search` says what the hash table
  can find, `Lz4Sequences` which sequences the compressor chooses when there is room for all, as a small machine
  on sequences (`Next`, `Outcome`, `Chosen`); `Lz4Encoder` is the compressor in its three output modes, over
  arrays; `Lz4Count` and `Lz4Memory` the word tricks below them; `Lz4Api` the entry points and the round trips.
- **TLSF allocator** (`src/tlsf.c`, 64-bit) over an array of 8-byte words, with in-band headers, boundary tags,
  bitmaps and intrusive lists. `TlsfBits`, `TlsfMapping` and `TlsfAlign` hold the bit searches and the size
  arithmetic, `TlsfLists` the bitmaps and links, `TlsfTiling` the headers and how blocks tile the pools,
  `TlsfPools`, `TlsfPayload` and `TlsfCut` what happens to pools, to payloads and to blocks trimmed to nothing,
  `TlsfState` the invariant, `Tlsf.Allocator` the allocator itself, `TlsfChains` what the links add up to,
  `TlsfRuns` whole runs.
- **Growing heap** (`src/heap.c`) on top of it: `Heap`.
- **Snapshot replication** (`src/net.c`): `Net` is the protocol between two peers over a channel that loses,
  repeats and reorders; `NetFormat` the bytes of its packets and the cursors that write and read them.
- **Bounded queue** (`src/queue.c`) as interleaved atomic steps: `Queue`.
- **Entity table** (`src/ecs.c`): `Ecs`.

`Bits` holds arithmetic on binary representations and `Wrappers` an option type.

## How the models read

- A pointer is an index into an array or a sequence; buffers that are only read are sequences. Integers are
  unbounded, and the places where the source relies on the width of a word (`size_t` in the allocator, the
  bitmaps, the hash table of 8192 or 4096 slots, 32-bit packet fields) say so.
- The hash function of the compressor is a parameter, and every result is for any hash.
- In the allocator a block is the word index of its header, an address is 8 times an index, NULL and
  `block_null` are index 0. `Allocator.Valid` says that the words are what the ghost layout `g` (blocks, free
  set, pools) and the ghost lists `links` say: it is the invariant that `tlsf_check` and the integrity walker
  sample. `Live(g)` maps the allocated blocks to their payload words; `Kept` says that payload is untouched.
- A few predicates are wrapped so that they are unfolded only where a proof names them (`Placed`, `Ahead`,
  `Tile`, `Cell`, `Node`) or mentions a predicate that holds of everything (`Open`, `Try`, `Look`, `Aim`).

## Where the source does not do what it, or its documentation, says

- Offset 0 is not in the format. The decoder writes zeros for it, the plain decoder leaves what the buffer
  held. `Lz4Api.SafeFollowsReference` gives the exact condition under which the two agree,
  `Lz4Api.ZeroOffsetDiffers` an input on which they do not.
- `tlsf_add_pool` admits 2^32 bytes, for which there is no list (`TlsfPools.AcceptedHasList`,
  `TlsfPools.LimitPool`). `AddPool` asks for less.
- A request within 7 bytes of 2^64 wraps around and is given the smallest block
  (`TlsfMapping.AdjustMeetsRequest`, `TlsfMapping.AdjustIsZero`).
- `tlsf_memalign` with the alignment 2^63 returns a block that is not aligned; for all smaller powers of two
  the result is aligned (`Tlsf.Allocator.Memalign`, both directions).
- `tlsf_realloc` with a size that adjusts to 0 (`TlsfMapping.AdjustIsZero` names the sizes) does not fail but
  returns the pointer with less behind it than was asked for. A block of 24 bytes stays as it is; of any
  larger one nothing is left (`Tlsf.Allocator.Realloc`, `Tlsf.Allocator.BlockTrimToNothing`).
- The size of an arena wraps around for requests of 2^63 - 92 bytes or more (`Heap.ArenaHoldsBoth` has the exact
  bounds).
- `heap_alloc` may fail after growing for alignments above 8 (`Heap.GrowingHeap.Alloc` has the exact
  condition, `Heap.FailingAllocation` an instance).
- `src/queue.h` calls overlapping pushes, and overlapping pops, safe. They are for a queue with one slot, where
  calls never overlap, and for no other (`Queue.FifoIff`).
- A delta is computed against the acknowledged snapshot but applied to the latest state. An entity that
  returns to a value it had in a snapshot still in the ring may be missed, and only then (`Net.FaithfulIff`).
- A copy that one packet leaves out is only marked for removal; named again by another packet of the same
  update it is written and lost (`Net.DroppedAndNamed`).
- `ecs_entity_remove` of an entity that is pending addition makes it match queries until the next update
  (`Ecs.HarmlessIffStable`).

## Model

| member | source | states |
|---|---|---|
| Lz4Format.ExpandUnique | src/lz4.c:1928-1932 | the byte-at-a-time match copy is the only output that continues the history at the given distance, so any copy that does so is that copy |
| Lz4Format.ExpandContinues | src/lz4.c:1928-1932 | the byte-at-a-time copy keeps the history and repeats it at the given distance |
| Lz4Format.StaleShows | src/lz4.c:1928-1932 | what the buffer held before shows in the output exactly when a match with offset 0 lies over a byte that is not zero |
| Lz4Format.ZeroOffsetShows | src/lz4.c:1928-1932 | a conforming block whose meaning does depend on what the buffer held |
| Lz4Format.ShorterHistory | src/lz4.c:2704-2717 | history out of reach of a 16-bit offset does not matter to the parsing restrictions |
| Lz4Format.ConformingHasMeaning | src/lz4.c:236-243 | a block that meets the parsing restrictions always has a meaning, of exactly the expected length |
| Lz4Format.MoreHistory | src/lz4.c:2704-2717 | history in front of what a block reaches changes nothing but the front |
| Lz4Format.ParseSerialize | src/lz4.c:1097-1215 | the grammar reads back exactly the sequences that were written |
| Lz4Memory.WildCopy8 | src/lz4.c:441-451 | the 8-byte wild copy repeats at its distance and overshoots by less than a word |
| Lz4Memory.WildCopy32 | src/lz4.c:498-510 | the 32-byte wild copy does so for distances of 16 and more |
| Lz4Memory.OverlapStart | src/lz4.c:2384-2398 | four bytes one by one and four by the tables start a match of any distance below 8, 0 included, and leave source and output a multiple of the distance apart |
| Lz4Memory.RestRepeats | src/lz4.c:453-495 | word copies after that start go on repeating at the original distance |
| Lz4Memory.MemcpyUsingOffsetBase | src/lz4.c:474-496 | the table-driven start and the wild copies leave the repeated pattern, and earlier output alone |
| Lz4Memory.MemcpyUsingOffset | src/lz4.c:514-552 | the same for the pattern copies at distances 1, 2 and 4 |
| Lz4Count.FirstDifference | src/lz4.c:559-650 | the trailing zeros of the exclusive-or of two words, divided by 8, are the number of leading bytes in common |
| Lz4Count.Count | src/lz4.c:664-695 | the count by words, halves and bytes is the length of the longest common prefix within the limit, as a byte-at-a-time comparison finds it |
| Lz4Reference.ReadLongLengthNoCheck | src/lz4.c:1823-1834 | reads exactly an extended length |
| Lz4Reference.ReferenceAcceptsConforming | src/lz4.c:1864-1942 | the plain decoder accepts an input as a whole if and only if it conforms for exactly this output size, and then yields its meaning |
| Lz4Reference.DecompressUnsafe | src/lz4.c:1845-1943 | the plain decoder, match copy and dictionary included, computes that specification in place |
| Lz4Decoder.ReadVariableLength | src/lz4.c:1955-1981 | reads an extended length that ends before the limit, and fails on every other |
| Lz4Decoder.SixBytesLeft | src/lz4.c:2254-2300 | behind every match of a conforming block at least a token and five literals are left to read |
| Lz4Decoder.LiteralStep | src/lz4.c:2254-2308 | copying the literals leads from the meaning before them to the meaning behind them, with the room the input rules promise |
| Lz4Decoder.ExtDictCopy | src/lz4.c:2330-2361 | a match that starts in a separate dictionary and runs on into the output continues the joined history |
| Lz4Decoder.SafeCopyWithin | src/lz4.c:2384-2414 | the cautious copy near the end of the buffer repeats at its distance within the buffer |
| Lz4Decoder.SafeCopy | src/lz4.c:2330-2414 | a match is refused exactly when it ends within the last five bytes, else it continues the history |
| Lz4Decoder.FastLiterals | src/lz4.c:2066-2084 | literals by wild copies, or a jump to the safe loop with nothing changed |
| Lz4Decoder.FastCopy | src/lz4.c:2115-2183 | the fast match copies lead to the next token of the same block |
| Lz4Decoder.FastLoop | src/lz4.c:2048-2186 | the fast loop stays within both buffers and leaves for a label of the safe loop with the rest of the block intact |
| Lz4Decoder.Shortcut | src/lz4.c:2206-2231 | the two-stage shortcut copies what the slow path would |
| Lz4Decoder.SafeLoop | src/lz4.c:2190-2419 | the safe loop ends, within both buffers, with the meaning of the block or a failure that no conforming input meets |
| Lz4Decoder.DecompressGeneric | src/lz4.c:1989-2426 | on arbitrary input: termination, no access outside, a result that is the meaning of the input, acceptance of every conforming input that fits, a negative code that tells where reading stopped |
| Lz4Sequences.CloseSerialize | src/lz4.c:1097-1215 | the bytes written so far followed by a block are the bytes of the block they begin |
| Lz4Sequences.CloseMeaning | src/lz4.c:1084-1086 | sequences whose matches really repeat the source mean the source |
| Lz4Sequences.CloseConforms | src/lz4.c:1299-1328 | the reserve kept behind each match makes the finished block meet the parsing restrictions |
| Lz4Sequences.Finished | src/lz4.c:1299-1336 | sequences that spell a prefix of the source, closed by the literals behind them, are a block of that text |
| Lz4Search.RepeatIsFound | src/lz4.c:1030-1090 | whatever the hash, a text within reach that repeats the one filed last under its hash is found |
| Lz4Search.EarlyProbes | src/lz4.c:1027-1037 | without acceleration no position is passed over in the first 65 tries |
| Lz4Search.TakenIsHit | src/lz4.c:1029-1090 | the try that ends a search has a match within reach, and the next one is not beyond the end |
| Lz4Search.HitIsTaken | src/lz4.c:1029-1090 | if any position that would be tried has a match, the search ends with one, there or before |
| Lz4Search.FirstHit | src/lz4.c:1029-1090 | a match at the position the search starts from is taken, with the candidate that the table had for it |
| Lz4Search.FindMatch | src/lz4.c:1024-1090 | a reported match lies within reach and its first four bytes are equal; it is the first that any of the positions tried has, with the table filled up to there, and none is reported only if none has one |
| Lz4Search.TestNext | src/lz4.c:1224-1291 | the position right behind a match is tried exactly so, with the position two before it filed first |
| Lz4Search.CatchUp | src/lz4.c:1092-1094 | extending a match backwards keeps it a match, and stops at the last literal run, at the start of the source or at a byte that differs |
| Lz4Sequences.FullLengthStops | src/lz4.c:1169-1173 | a match that is written in full ends where the last literals begin, or before a byte that differs |
| Lz4Sequences.MatchSize | src/lz4.c:1096-1328 | with a match to come the block takes at least its literals, its sequence and the last literals, whatever is chosen behind it |
| Lz4Sequences.RunChosen | src/lz4.c:984-1328 | of a run of one byte a literal, one match and five literals are chosen, whatever the hash and the acceleration |
| Lz4Encoder.EncodeLiterals | src/lz4.c:1096-1118 | token, length bytes and wildly copied literals fit the reserve and are in the output, or, exactly if they do not fit, the mode says how to stop |
| Lz4Encoder.FitMatch | src/lz4.c:1174-1199 | a match too long for the target is shortened until its description and the last literals fill it, and the hash table forgets the positions behind it; any other is written in full |
| Lz4Encoder.EncodeMatch | src/lz4.c:1123-1219 | offset, match length and token continue the block by a match of the source as long as it can be, or, exactly if it does not fit, nothing is consumed |
| Lz4Encoder.NoFit | src/lz4.c:1097-1107 | where a sequence does not fit, all that would be chosen does not fit either |
| Lz4Encoder.EncodeMatches | src/lz4.c:1123-1292 | so does a chain of matches without literals between them, along the stages of the choice |
| Lz4Encoder.MainLoop | src/lz4.c:988-1297 | the loop comes to what is chosen for the source, or gives up because that is too big; no match could have been longer at either end |
| Lz4Encoder.EncodeLastLiterals | src/lz4.c:1299-1328 | the closing run, shrunk to what fits in fill-output mode, completes a block of the consumed text |
| Lz4Encoder.LastRunShrinks | src/lz4.c:1304-1310 | the shrunken run and its length bytes fill the remaining room but for at most a byte and never pass it |
| Lz4Encoder.CompressValidated | src/lz4.c:912-1336 | in each output mode: what is written stays within the capacity and is a block of exactly the consumed source, of matches that could not be longer; unlimited and limited output is what is chosen, limited returns 0 exactly if that does not fit; fill-output leaves at most a byte unless it consumes everything |
| Lz4Api.CompressGeneric | src/lz4.c:1343-1378 | the same for a fresh context, with empty and oversized sources |
| Lz4Api.CompressFast | src/lz4.c:1381-1405 | the result is the block of what is chosen for the source, independent of the capacity, and 0 exactly if it does not fit; it always fits the bound |
| Lz4Api.CompressDestSize | src/lz4.c:1487-1504 | for every target of at least one byte: a block of a prefix of the source that fits, and fills the target but for at most a byte if it is not the whole; the whole, as compressed without a limit, if that leaves three bytes |
| Lz4Api.SmallerBuffer | src/lz4.c:1387-1403 | compressing into a smaller buffer gives the same bytes, or 0 exactly if they do not fit |
| Lz4Api.CompressRun | src/lz4.c:1381-1405 | a run of n equal bytes takes 10 + (n + 230) / 255 bytes, whatever the hash and the acceleration, in every buffer that has them |
| Lz4Api.CompressRunDestSize | src/lz4.c:1487-1504 | so it does as a target to be filled, with three bytes to spare |
| Lz4Api.DecompressSafe | src/lz4.c:2431-2437 | an accepted input yields its meaning, every conforming input that fits is accepted |
| Lz4Api.DecompressSafeUsingDict | src/lz4.c:2704-2717 | whichever way the dictionary is reached, the result is the meaning behind all of the dictionary, and every input that conforms behind it and fits is accepted |
| Lz4Api.DictionaryOrPrefix | src/lz4.c:2704-2717 | a separate dictionary and a contiguous one give the same bytes whenever both succeed, and both succeed on every conforming input that fits |
| Lz4Api.RoundTrip | src/lz4.c:984-1336 | for every source, hash and acceleration both decoders return the source from the compressor's output |
| Lz4Api.DestSizeRoundTrip | src/lz4.c:1487-1504 | for every target size both decoders return exactly the consumed prefix |
| Lz4Api.SafeFollowsReference | src/lz4.c:1864-1942 | whatever the plain decoder accepts the safe decoder accepts, with the same bytes exactly when no match with offset 0 lies over a byte that is not zero |
| Lz4Api.ZeroOffsetDiffers | src/lz4.c:1928-1932 | an input that both decoders accept with different bytes |
| TlsfMapping.MaskRoundsDown | src/tlsf.c:474-478 | the mask of align_down is rounding down to a multiple |
| TlsfMapping.AdjustMeetsRequest | src/tlsf.c:492-506 | an adjusted size is 0 or large enough if and only if rounding up does not wrap around |
| TlsfMapping.AdjustedIsLegal | src/tlsf.c:492-506 | adjusted sizes are 0 or legal block sizes, and near the request |
| TlsfMapping.AdjustIsZero | src/tlsf.c:492-506 | which requests are refused, and what those that wrap around are given |
| TlsfMapping.ClassHoldsSize | src/tlsf.c:513-530 | the range of the class of a size holds the size, and the class is in the table if and only if the size is below 2^32 |
| TlsfMapping.MappingMonotone | src/tlsf.c:513-530 | larger sizes never have smaller classes |
| TlsfMapping.GoodFit | src/tlsf.c:532-541 | every block in a class at or above the searched one is large enough, every block of the rounded size is in such a class, and the rounding is less than 1/32 |
| TlsfBits.FlsGeneric | src/tlsf.c:150-163 | five tests and shifts find the position of the last set bit, and 0 for no bit |
| TlsfBits.TlsfFfs | src/tlsf.c:165-168 | the word and its two's complement share the lowest set bit and no other, so that the last bit of both is the first of the word |
| TlsfBits.FlsSizeT | src/tlsf.c:179-193 | the last set bit of a long word from its halves |
| TlsfLists.ShiftedOnes | src/tlsf.c:551-563 | the 32-bit shift of all ones has exactly the bits from the shift on |
| TlsfLists.FirstFrom | src/tlsf.c:551-569 | masking with it and taking the first bit finds the first bit from there on, and 0 means there is none |
| TlsfLists.SearchSuitableBlock | src/tlsf.c:543-573 | the search finds the first non-empty list at or above the class, and reports failure only if there is none |
| TlsfLists.UnlinkKeeps | src/tlsf.c:576-602 | taking a block out of its list leaves all lists correctly linked |
| TlsfLists.LinkKeeps | src/tlsf.c:605-616 | putting a block at the head of a list leaves all lists correctly linked |
| TlsfLists.RemovedMapped | src/tlsf.c:586-601 | after a removal both bitmap levels still say exactly which lists hold something |
| TlsfLists.InsertedMapped | src/tlsf.c:617-623 | so they do after an insertion |
| TlsfTiling.FlagArithmetic | src/tlsf.c:365-409 | reading and setting size and flags with masks is the arithmetic the model uses |
| TlsfTiling.SplitWords | src/tlsf.c:647-666 | a split leaves every header, flag and boundary tag in agreement with the layout, whatever bits the payload held |
| TlsfTiling.AbsorbedWords | src/tlsf.c:669-676 | so does absorbing the next block |
| TlsfTiling.MarkedFreeWords | src/tlsf.c:453-459 | so does marking a block free |
| TlsfTiling.MarkedUsedWords | src/tlsf.c:461-466 | so does marking it used |
| TlsfTiling.SplitTiles | src/tlsf.c:647-666 | the two parts of a split still tile the pool with legal sizes |
| TlsfTiling.AbsorbedTiles | src/tlsf.c:669-676 | the merged block still tiles the pool |
| TlsfState.SearchFails | src/tlsf.c:753-781 | if the search fails no free block is in a list that is searched |
| TlsfState.SearchFinds | src/tlsf.c:753-781 | a block that is found is free, listed in the list it was found in, and large enough |
| TlsfState.SearchIsBest | src/tlsf.c:753-781 | and it is in the lowest of the searched lists that hold any |
| TlsfState.NoRoom | src/tlsf.c:753-781 | when no free block is in a searched list, none reaches the request rounded up to its class |
| TlsfState.MergePrevClean | src/tlsf.c:679-691 | after merging backwards only the merged block can touch a free block |
| TlsfState.MergeNextClean | src/tlsf.c:694-707 | after merging forwards no two free blocks touch |
| TlsfAlign.GapFits | src/tlsf.c:1147-1173 | the gap makes the address aligned, is 0 or wide enough for a block, and never exceeds the alignment plus 24 bytes |
| TlsfAlign.GapIsLeast | src/tlsf.c:1147-1173 | no smaller gap would align and be 0 or wide enough |
| TlsfAlign.ReserveCovers | src/tlsf.c:1137-1144 | the over-allocation covers size, alignment and minimum gap, exactly for alignments below 2^63 |
| TlsfAlign.ReserveIsSmall | src/tlsf.c:1137-1144 | it is less than the size, twice the alignment and the minimum gap, and a request is refused for it only if that exceeds the limit |
| TlsfAlign.GapWithin | src/tlsf.c:1137-1173 | with the reserve the leading gap can always be split off and leaves enough |
| TlsfPayload.PayloadKeeps | src/tlsf.c:411-421 | whatever a caller writes to its payload, the heap stays sound and other payloads keep their contents |
| TlsfPayload.BlendBytes | src/tlsf.c:1236-1241 | copying the low bytes of a last word changes those bytes and no others |
| TlsfPools.AddedKeeps | src/tlsf.c:981-1028 | a new pool in vacant memory keeps what the heap relies on |
| TlsfPools.AcceptedHasList | src/tlsf.c:996-1010 | a pool that the size test lets through has a list if and only if it is not of exactly 2^32 bytes |
| TlsfPools.LimitPool | src/tlsf.c:996-1010 | a request for such a pool |
| TlsfPools.RemovedKeeps | src/tlsf.c:1030-1043 | an empty pool can be dropped without touching memory |
| TlsfPools.WalkedBytes | src/tlsf.c:904-920 | along any walk, sizes and headers add up to the distance walked |
| TlsfPools.FullyCoalesced | src/tlsf.c:669-707 | when nothing is allocated every pool that has a block is one free block of its original size |
| TlsfChains.FreeListsExact | src/tlsf.c:844-894 | each free block sits exactly once in the doubly linked list of its size class, nothing else does, and the bitmap says which lists hold something |
| Tlsf.Allocator.constructor | src/tlsf.c:797-813 | an empty heap is sound |
| Tlsf.Allocator.BlockSetSize | src/tlsf.c:370-374 | the size word gets the size and keeps both flags, whatever it held |
| Tlsf.Allocator.BlockSetFree | src/tlsf.c:386-389 | sets one flag, keeps the size and the other flag |
| Tlsf.Allocator.BlockSetPrevFree | src/tlsf.c:401-404 | sets the other flag, keeps the rest |
| Tlsf.Allocator.BlockMarkAsFree | src/tlsf.c:453-459 | marks exactly this block in the layout, payloads in use kept |
| Tlsf.Allocator.BlockMarkAsUsed | src/tlsf.c:461-466 | the inverse |
| Tlsf.Allocator.RemoveFreeBlock | src/tlsf.c:576-602 | takes exactly this block out of the lists |
| Tlsf.Allocator.InsertFreeBlock | src/tlsf.c:605-623 | puts exactly this block in |
| Tlsf.Allocator.SplitFree | src/tlsf.c:710-720 | splitting a free block, with the fix-ups of the caller |
| Tlsf.Allocator.SplitUsed | src/tlsf.c:723-735 | splitting an allocated block, whose kept words stay |
| Tlsf.Allocator.AbsorbUsed | src/tlsf.c:1249-1253 | growing an allocated block over the free one behind it |
| Tlsf.Allocator.BlockMergePrev | src/tlsf.c:679-691 | merges with a free block before it if there is one |
| Tlsf.Allocator.BlockMergeNext | src/tlsf.c:694-707 | merges with a free block behind it if there is one |
| Tlsf.Allocator.BlockLocateFree | src/tlsf.c:753-781 | takes out a block that is large enough, exactly if some free block is in a list that is searched, and from the lowest such list |
| Tlsf.Allocator.BlockTrimFree | src/tlsf.c:710-720 | returns the excess of a free block and leaves no two free neighbours |
| Tlsf.Allocator.BlockTrimUsed | src/tlsf.c:723-735 | returns the excess of an allocated block, merged with a free one behind it |
| Tlsf.Allocator.BlockTrimFreeLeading | src/tlsf.c:737-751 | returns the leading gap as a block of its own |
| Tlsf.Allocator.Malloc | src/tlsf.c:1116-1122 | a new block of at least the request, and less than a split more, that overlaps no live one, or NULL and no change; the heap stays sound and live payloads are kept; the result is not NULL exactly if some free block is in a list that is searched, and then in the lowest such list |
| Tlsf.Allocator.Memalign | src/tlsf.c:1124-1179 | the same at the alignment; the result is aligned if and only if the alignment is below 2^63 |
| Tlsf.Allocator.Free | src/tlsf.c:1181-1194 | exactly this block is no longer live, neighbours are merged, other payloads kept |
| Tlsf.Allocator.Realloc | src/tlsf.c:1209-1264 | moved, grown in place or trimmed: the bytes up to the smaller size are kept, other payloads untouched; the pointer stays the same exactly if the block need not move; NULL, exactly if it must and there is no room, changes nothing; the NULL pointer and size 0 behave as malloc and free; what comes back is at least the request if and only if the size does not adjust to 0 |
| Tlsf.Allocator.BlockTrimToNothing | src/tlsf.c:723-735 | trimming to size 0 leaves a block of 24 bytes alone, and makes any other a sentinel without payload behind which a new pool begins; the heap stays sound and other payloads are kept |
| TlsfCut.CutKeeps | src/tlsf.c:647-666 | the words of a split at size 0 describe that layout |
| Tlsf.Allocator.AddPool | src/tlsf.c:981-1028 | a usable region becomes one free block and a sentinel, any other request is refused without change |
| Tlsf.Allocator.RemovePool | src/tlsf.c:1030-1043 | an empty pool disappears from layout and lists |
| Tlsf.Allocator.Check | src/tlsf.c:844-894 | tlsf_check finds nothing wrong with a sound heap |
| Tlsf.Allocator.CheckPool | src/tlsf.c:827-842 | neither does the integrity walker |
| Tlsf.Allocator.WalkPool | src/tlsf.c:904-920 | the walk visits the blocks of the pool in order, and their sizes and headers always add up to its size |
| Tlsf.Allocator.WritePayload | src/tlsf.c:411-421 | a store by the owner keeps the heap sound |
| TlsfRuns.Run | src/tlsf.c:981-1264 | any script of malloc, memalign, realloc, free, stores, add_pool and remove_pool keeps the heap sound; the pointers held by the client are exactly the live blocks, each once; a block whose slot no command names keeps its place, size and contents |
| TlsfRuns.FreeAll | src/tlsf.c:1181-1194 | after any run, freeing everything leaves every pool there then one free block of its original size |
| TlsfRuns.RemoveAll | src/tlsf.c:1030-1043 | then every pool that has a block can be taken back |
| TlsfRuns.ClearIsVacant | src/tlsf.c:981-1028 | memory outside the pools a client has added is occupied by no block |
| TlsfRuns.CreateWithPool | src/tlsf.c:1077-1103 | a new heap whose pool is a single free block |
| TlsfRuns.Session | src/tlsf.c:1030-1043 | an empty heap, any script with any pools, everything freed, every pool taken back: nothing is left but the sentinels of blocks an oversized realloc cut off, and without such a call nothing at all |
| Heap.ArenaHoldsBoth | src/heap.c:61 | behind its header an arena holds the increment and twice the request, and is one of the two; each exactly unless the arithmetic wraps around |
| Heap.PoolHoldsBoth | src/heap.c:61-71 | so does its pool, less at least 161 and at most 168 bytes |
| Heap.GrowthSuffices | src/heap.c:61-62 | for alignments up to 8 the new arena is large enough for the rounded request |
| Heap.GrownRoom | src/heap.c:61-83 | after a failed first try the new pool makes room exactly if its class is not below the one searched |
| Heap.SmallArenaIsMissed | src/heap.c:61-62 | an arena without room for the reserve of an alignment above 8 is in no class that is searched |
| Heap.FailingAllocation | src/heap.c:55-84 | an allocation that fails although the system has memory |
| Heap.GrowingHeap.Grow | src/heap.c:61-82 | puts an arena in front of the list and, if its size is legal, exactly its pool into the heap, which can then serve whatever rounds up to no more than the increment |
| Heap.GrowingHeap.Alloc | src/heap.c:55-84 | succeeds if and only if there was room, or the system has memory and the class of the new pool is not below the one searched; for alignments up to 8 and arenas below the block limit that is always so; the heap grows by one arena exactly if there was no room and the system has memory |
| Heap.GrowingHeap.Free | src/heap.c:119-124 | frees as tlsf_free does |
| Net.DeltaAt | src/net.c:470-502 | each entity has its entry; one without data stands with the same data in the baseline |
| Net.LeftOutExactly | src/net.c:470-502 | an entity is left out exactly if the baseline has it with the same bytes and what the baseline has before it occurs, in order, before the entity; so behind an entity that is gone everything is sent |
| Net.AcceptExact | src/net.c:526-596 | after reading a packet the copies are its snapshot if and only if what it leaves out is here as it was sent, nothing gone was seen in the same update, and nothing it names is pending removal |
| Net.DroppedAndNamed | src/net.c:585-595 | an entity that one packet leaves out and another of the same update names is lost at the next update of the entity table |
| Net.SettledAgrees | src/ecs.c:60-73 | completing the removals changes nothing about agreement |
| Net.DeliveryExact | src/net.c:526-596 | copies that are snapshot m become snapshot n if and only if every entity the packet leaves out has the same bytes in both |
| Net.OutgoingExact | src/net.c:452-505 | the baseline is the acknowledged snapshot exactly as long as it is in the ring |
| Net.OutgoingOk | src/net.c:452-524 | every packet is a difference to a snapshot the receiver has accepted, ring reuse included, or complete |
| Net.InvKept | src/net.c:598-624 | every step of the two peers keeps the invariant, and no acknowledgement goes back |
| Net.AcksAreHonest | src/net.c:610-618 | in every run, whatever is lost, repeated or reordered, the acknowledgement never decreases and names a snapshot the peer accepted |
| Net.Replication | src/net.c:416-624 | with a fixed entity set and no return, while a snapshot is in the ring, to a value that was left, after packet n is accepted the copies are snapshot n |
| Net.FaithfulIff | src/net.c:416-624 | for a fixed set in a fixed order every run, over any channel, is faithful if and only if nothing so returns |
| Net.Handshake | src/net.c:507-524 | an exchange that makes any given snapshot the baseline |
| Net.ReturnIsMissed | src/net.c:481-491 | for any return within the ring, a run in which it is missed |
| NetFormat.IntRoundTrip | src/net.c:58-68 | 32-bit header fields are read back as written |
| NetFormat.LowestFirst | src/net.c:58-68 | the bytes of an integer are its value in two's complement, lowest first, and reading them does not depend on who wrote them |
| NetFormat.AllFit | src/net.c:423-449 | nothing is skipped when header, entities and one flag byte each fit a packet |
| NetFormat.FittingExactly | src/net.c:423-449 | an entity is in the snapshot exactly if it leaves at least a byte of the room behind those kept before it |
| NetFormat.SnapshotEntities | src/net.c:416-450 | serialises exactly the entities there is room for |
| NetFormat.AddEntities | src/net.c:452-505 | from the bytes of two snapshots the bytes of the difference that Net.LeftOutExactly describes, within the packet |
| NetFormat.ReadEntities | src/net.c:526-596 | from the bytes of a difference its effect on the copies, marks for removal included |
| NetFormat.WritePacket | src/net.c:507-524 | header and difference |
| NetFormat.ReadPacket | src/net.c:598-624 | what arrives is what was sent, and old packets are dropped |
| NetFormat.Exchange | src/net.c:153-167 | serialising, sending and reading bytes has the effect the protocol model gives it |
| Queue.PermitsConserved | src/queue.c:38-54 | for any number of threads and any interleaving, free and used permits and calls in flight add up to the capacity |
| Queue.NothingInvented | src/queue.c:39-54 | for any number of threads and any interleaving, no two pops return under one ticket, and each returns what its slot held at first or what a push of this slot was given |
| Queue.WriteIsSafe | src/queue.c:38-44 | without overlapping calls a write never hits a slot that is still to be read |
| Queue.ReadIsSafe | src/queue.c:46-54 | a read finds the item of its ticket, already written |
| Queue.FirstInFirstOut | src/queue.c:38-78 | without overlapping calls what the pops have returned is a prefix of what was pushed, every pop returns the item of its ticket and has it once it has read its slot, and at rest the permits are the items left |
| Queue.OnePairIsExclusive | src/queue.c:38-78 | one pusher and one popper never overlap with themselves, whatever the interleaving |
| Queue.WholeCall | src/queue.c:38-54 | a call without interruption pushes its item under its ticket, or returns what the slot of its ticket held |
| Queue.FifoIff | src/queue.c:38-78 | for any pushing and any popping threads, the items returned in every run are first in, first out, and every pop returns the item of its ticket, if and only if there is one slot, or one pusher and one popper |
| Queue.OverlappingPushes | src/queue.c:38-44 | with two slots or more, whatever they hold, and two pushers: a pop reads a slot before it is written |
| Queue.OverlappingPops | src/queue.c:46-54 | with two slots or more and two poppers: a push overwrites a slot before it is read |
| Ecs.ApplyKeeps | src/ecs.c:98-126 | every call keeps sequence numbers unique and below the counter |
| Ecs.NeverRevalidated | src/ecs.c:128-133 | a handle that is no longer valid never becomes valid again, in any run |
| Ecs.HandlesAreUnique | src/ecs.c:98-113 | handles issued later differ, and two valid handles with one number are the same |
| Ecs.Lifecycle | src/ecs.c:60-73 | addition and removal take effect at the next update |
| Ecs.OthersUntouched | src/ecs.c:98-126 | a call changes nothing about a slot that it is not about, and an update completes what is pending and no more |
| Ecs.KeepsWhatWasGiven | src/ecs.c:106-107 | in any run, as long as a handle is valid its slot has the mask and the index given when it was added |
| Ecs.AddedIsFound | src/ecs.c:106 | from the next update on, and not before, an entity is found by exactly the queries for components it was given |
| Ecs.ContainsAll | src/ecs.c:157-168 | a mask matches a query exactly if it has every bit of it |
| Ecs.MatchingIsExact | src/ecs.c:157-168 | the list of matches holds exactly the matching slots, in ascending order |
| Ecs.HarmlessIffStable | src/ecs.c:115-126 | a step outside an update leaves all queries alone if and only if it does not remove an entity that is pending addition |
| Ecs.EntityTable.constructor | src/ecs.c:39-46 | an empty table |
| Ecs.EntityTable.EntityAdd | src/ecs.c:98-113 | takes the first unused slot and hands out the next number, with mask and index stored as Ecs.KeepsWhatWasGiven and Ecs.AddedIsFound say |
| Ecs.EntityTable.EntityRemove | src/ecs.c:115-126 | marks a valid handle's slot for removal, and returns its index in any case |
| Ecs.EntityTable.UpdateAll | src/ecs.c:60-73 | completes all pending additions and removals |
| Ecs.EntityTable.QueryNext | src/ecs.c:157-168 | the first matching slot behind the cursor, or none |
| Ecs.EntityTable.QueryCreate | src/ecs.c:145-150 | the first matching slot |
| Ecs.EntityTable.VisitAll | src/ecs.c:145-168 | a create/next loop whose body adds and removes active entities visits exactly what matched at the start, each once, in ascending order |

## Left out

- LZ4 streaming, dictionary compression, partial decoding, the obsolete entry points, and the big-endian,
  32-bit and pointer-table variants: more modes of the same loops.
- Which inputs outside the parsing restrictions the safe decoder accepts: it depends on the capacity and on
  the path taken (the shortcut does not check the last literals), so the model states soundness for all
  inputs and acceptance for all conforming ones.
- Lz4Decoder.DecompressGeneric: overflow tests on pointers are not modelled, because indices do not overflow;
  for an output of no bytes only the input 0 is accepted, as in the source.
- Lz4Encoder.CompressValidated: what fill-output chooses when there is no room for everything is stated as a full
  block of matches that could not be longer, not as an exact choice.
- Lz4Api.DecompressSafeUsingDict: the 64 KB prefix is entered with the 65535 bytes an offset can reach.
- Tlsf.Allocator.AddPool: a pool of exactly 2^32 bytes is excluded, because its list would lie outside the
  table and the source writes past the end of it. The sentinel is written before the block is listed, where
  the source lists it first; the words are different ones, and the result is the same.
- TlsfRuns.CreateWithPool: the control structure lies outside the array, but for block_null, where the source
  puts it at the start of the memory it is given.
- TlsfRuns.Run: a client does not add a pool of exactly 2^32 bytes, nor memory that overlaps a pool it has.
- Tlsf.Allocator.Memalign: the alignment is a power of two, as the source asserts, and memory lies below 2^47.
- The intrinsic variants of ffs and fls, and printing walkers.
- Heap.GrowingHeap.Alloc: the region for a new arena is assumed to be vacant and as large as the pool handed
  over; the size the source asks the system for does not count the arena header. The mutex, which the source
  leaves locked when the system is out of memory, call stacks and heap_destroy are not modelled.
- Net.Replication: sockets, threads, time-outs, reconnects, table sizes and 32-bit sequence numbers that wrap
  around are not modelled; a full receive queue is a lost packet. Before the first acknowledgement the source
  looks at the ring at index -1; the model takes this as having no baseline.
- NetFormat.ReadEntities: the table of copies is a map from remote number to copy, without its 32 slots and
  without removal of copies by the receiver itself.
- Queue.FirstInFirstOut: tickets do not wrap around.
- Ecs.EntityTable.EntityRemove: the handle has to name a slot, because the source reads the slot's index even
  for an invalid one. Component storage is not modelled.
- File system, graphics, window, timing, tracing, transforms and the games.

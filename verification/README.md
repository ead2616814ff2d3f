# The block storage engine of xoz

xoz keeps segments of bytes in an array of blocks. This project models the engine that does it: the allocator and its free
maps, the flat view of a segment's bytes, a block array nested in a segment of another one, the codecs of segments and
descriptors, and the checksums. `dafny verify dfyconfig.toml` checks everything.

## How it is built

- **Ownership.** A block has 16 sub-blocks. `Ownership.Balanced` says that each sub-block of the array has one owner: a free
  chunk of blocks, a free bit of a block for suballocation, or one extent in use. `SegmentAllocator` keeps a ghost ledger
  `live` of the segments it handed out, as values; `Valid()` ties the two free maps, the array, the counters and the ledger
  together, and every operation keeps it. So what `Valid()` implies (`OneOwnerEach`, `LiveShareNothing`, `ExactStats`) holds
  after any run of operations.
- **Bytes.** `Layout` gives the positions of an extent in the buffer: whole blocks in order, or the sub-blocks of a bitmap from
  its most significant bit on. A segment's bytes are those at its positions, then its inline bytes. `SegmentIo` proves that
  reading and writing through the extents is slicing and updating this one string.
- **Sizes.** `Requests` computes from a request, and from the extents a segment has, the size that it will have.
- **Growth.** `Growth.Rank` counts how often a request can still fail while the array grows, `Growth.Lacking` bounds the blocks
  that it grows by, and `BlockArray.CanReach` says how far an array can grow.
- **Codecs.** Segments and descriptors are lists of 16-bit words. The encoders and decoders are functions; the loops of the
  writers, readers and size predictions are proved equal to them. `SegmentCodec.LaidOut` and `DescriptorCodec.DscLaidOut` say
  the same formats bit by bit, without the encoders, and `FormatWitnesses` spells out words.
- **Reuse.** `Reuse.Reused` is what a pass over the free chunks takes and leaves, a function of the two indexes.
- **Errors.** An exception is an `Outcome` that `Throws`; contracts say when. A well-formed request
  (`WellAsked`) succeeds if the array before the call can reach as far as the request may make it grow (`Granted`); a resize
  if it makes no request or the array affords it (`Affords`).

Products of a count and a size are spelt `Products.Times`, a repeated sum.

## What the proofs show about the code

- A request that fails half way keeps the extents it had taken; nothing frees them. The ledger lists them as `lost`, and
  `Alloc` says what they are: a single extent of more than 65535 blocks always loses one of 65535 if the array can grow.
- The allocator's count of extents in use misses an extent that was split and lost one part. That happens in two ways: a
  `SegmentBlockArray` splits an extent when it releases part of it, exactly if `Geometry.SplitsOne` holds of the extents and
  the slack; and a descriptor set frees the second part of an extent (`DeallocSingleExtent`). `inUseExtCnt + splits` is the
  true count, and the counter passes below zero when all is freed (`Witnesses.ReleaseHalves`, `Witnesses.FreeHalves`).
- `SegmentBlockArray` frees the extents that a shrink gives back before it counts their blocks in 16 bits. Beyond 65535 blocks
  the count fails, or is cut off without assertions, and the array goes on with blocks that its segment has lost:
  `ShrinkByBlocks` has the exact condition, `Witnesses.GiveBackTooMany` an input.
- A resize of a content part that parks 1 MiB or more of hidden bytes on disk never frees the segment it parks them in
  (`Witnesses.LeakParked`).
- A resize looks for the hidden bytes at the end of the segment, padding included. They survive exactly if the sizes before the
  call say so (`HiddenSurvive`); with the default request they can be lost (`Witnesses.LoseHidden`). With an exact
  geometry, that is sub-blocks of at most the inline limit plus 1 bytes, there is no padding.
- An array that over-allocates grows by fewer blocks than it was asked for exactly from 52429 blocks on (`SlackWraps`); here
  such a growth is refused.
- A resize that fails may have shortened the segment by then (`Realloc`, `Requests.LeftAfter`).
- The sum that a flush of a descriptor set makes has 32 bits and is folded only at its end. Up to 32768 descriptors it is right;
  from 32769 on it can wrap, and then the stored checksum is wrong unless it wraps a multiple of 65535 times.
- A descriptor of type 0 without persistent id, content and internal data is stored as one zero word, and is taken for
  padding when the set is loaded.
- `SegmentBlockArray` does not check that its block size divides the blocks, or sub-blocks, of the background. That is just
  what keeps its blocks whole (`Geometry.WholeIffMultiple`); without it a shrink can leave part of one.

## Model

| member | source | states |
|---|---|---|
| SegmentAllocators.SegmentAllocator.Alloc | xoz/alloc/segment_allocator.cpp:83-279 | A request is answered with a new holding of exactly AllocSize bytes: sz, or rounded up to the granule if what is left is too much for inline data; its shape follows the split of the size; all other holdings keep their bytes. Free space is used first: the extents that a pass over the free chunks takes (ReusedFor) are the first of the segment, and the array grows by at most MayGrow blocks, what is lacking for what such a pass leaves. If it does not grow, nothing in it changes. It succeeds if the array before the call can reach so far (Granted). When it throws it has lost what it had taken: at most what it was to get, exactly one extent of 65535 blocks where one extent was too few, and nothing for a bad request, which changes nothing |
| SegmentAllocators.SegmentAllocator.AllocateFor | xoz/alloc/segment_allocator.cpp:83-279 | Exact size and shape of what an empty segment is given, the free space it reuses, when it succeeds, how far the array grows, which errors end the request, and what it holds then |
| Requests.PlanSizes | xoz/alloc/segment_allocator.cpp:131-184 | The split of a size into blocks, sub-blocks and inline bytes adds up to exactly AllocSize bytes, with fewer than 16 sub-blocks |
| SegmentAllocators.SegmentAllocator.AllocateExtents | xoz/alloc/segment_allocator.cpp:808-862 | Terminates; the blocks taken and those that remain add up. A pass that may not grow takes exactly the extents of Reuse.Reused, leaves exactly its two indexes and its rest, and does not touch the array. With growth and no limit nothing remains; with growth and a limit of one extent there is exactly one; a request that one free chunk serves takes one extent and leaves the array alone; a limit on the extents is kept; the array gets at most Need blocks more, what the free chunks before the call lack, and it throws only if the array before could not reach so far |
| SegmentAllocators.SegmentAllocator.AllocateBlocks | xoz/alloc/segment_allocator.cpp:184-217 | First without growth, then with it: the extents that the pass without growth takes are the first of the segment, and if it leaves nothing they are all and the array is unchanged; else the array grows by at most what is lacking for the rest. The blocks asked for, all in extents of whole blocks; one extent and no growth if one free chunk serves them; succeeds if the array can grow by the bound, unless one extent is too few: then it holds one of 65535 blocks |
| SegmentAllocators.SegmentAllocator.FreeSpaceFirst | xoz/alloc/segment_allocator.cpp:184-217 | With split threshold 0 and an extent threshold of twice the free chunks, a request for no more blocks than are free in all does not grow the array |
| Reuse.PassCounts | xoz/alloc/segment_allocator.cpp:808-862 | What a pass over the free chunks takes is no longer missing and no longer free; its extents have 1 to 65535 blocks |
| Reuse.PassStops | xoz/alloc/segment_allocator.cpp:839-853 | A pass without growth ends with blocks missing only if its extents and failures have used up the threshold, or every free chunk is larger than its last probe by at most the split threshold; with split threshold 0 none is free then |
| Reuse.PassPays | xoz/alloc/segment_allocator.cpp:817-859 | Extents and failures counted are at most twice the extents plus 1 |
| Reuse.TakesLargest | xoz/alloc/segment_allocator.cpp:808-862 | With split threshold 0 a pass leaves no more blocks than k of the largest chunks cannot hold, for twice k within the threshold |
| Reuse.AllReused | xoz/alloc/segment_allocator.cpp:808-862 | If the threshold allows two for each chunk, exactly the blocks that are not free in all are missing after a pass |
| Reuse.RoomyPass | xoz/alloc/segment_allocator.cpp:808-862 | If one chunk has the blocks, a pass finds them at once and leaves the rest of it free |
| Witnesses.FiveOfTwoChunks | xoz/alloc/segment_allocator.cpp:184-197 | The input: 5 blocks with chunks of 3 and 2 free; the pass takes the 3, and the 2 that are missing need no growth |
| SegmentAllocators.SegmentAllocator.ProvideMoreToFr | xoz/alloc/segment_allocator.cpp:888-919 | Each growth strictly lowers the number of times that the request can still fail, and is paid out of the blocks that are lacking; a refused growth changes nothing |
| Growth.GrowthServes | xoz/alloc/segment_allocator.cpp:888-919 | The growth asked for is at least one block and at most the request, and the rank of the request falls strictly, with coalescing or without, also across the 65535-block limit of a chunk |
| Growth.RankBound | xoz/alloc/segment_allocator.cpp:817-859 | A request fails at most split threshold plus 2 times |
| Growth.GrowthPays | xoz/alloc/segment_allocator.cpp:888-919 | All growths for n blocks together are at most what was lacking before them, which is at most n plus split threshold plus 1 |
| SegmentAllocators.WorstBound | xoz/alloc/segment_allocator.cpp:83-279 | The growth for sz bytes is bounded by the blocks that sz bytes fill, whatever is free |
| BlockArrays.BlockArray.CanReachGrows | xoz/blk/block_array.cpp:79-126 | If the array can reach a block, every growth up to it succeeds, with over-allocation or without |
| BlockArrays.StillReaches | xoz/blk/block_array.cpp:79-126 | That stays so while it grows, in whatever steps |
| BlockArrays.BlockArray.ReachIsGrowth | xoz/blk/block_array.cpp:79-126 | Without over-allocation the condition is exact |
| SegmentAllocators.SegmentAllocator.AllocateSubblkExtent | xoz/alloc/segment_allocator.cpp:864-886 | Ends with one more extent of n sub-blocks of one block, the others unchanged; without growth if a block has n free bits, else with at most what a single block lacks; throws only if the array before could not reach so far |
| SegmentAllocators.SegmentAllocator.ProvideMoreToSub | xoz/alloc/segment_allocator.cpp:921-934 | Either one free block, all 16 sub-blocks of it free, moves to the sub-block map, or nothing changes and no single block is usable |
| SegmentAllocators.SegmentAllocator.AllocSingleExtent | xoz/alloc/segment_allocator.cpp:281-303 | One extent of whole blocks that has sz bytes and less than one block more, if the array can grow by the bound; fails for 0 bytes, losing nothing, and for more than 65535 blocks, losing exactly one extent of 65535 blocks whenever the array can grow by as many |
| SegmentAllocators.SegmentAllocator.Dealloc | xoz/alloc/segment_allocator.cpp:305-354 | Takes exactly the holding of the segment out of the ledger; zeroes its blocks if asked to, changes no byte at all if not, and touches none outside them; afterwards a free chunk covers each of its extents of blocks |
| SegmentAllocators.SegmentAllocator.DeallocSingleExtent | xoz/alloc/segment_allocator.cpp:515-526 | Takes the holding of the extent out, or the second part of an extent in use of which the first stays; throws exactly for an empty extent; the count of extents falls by one either way, and so is wrong by one more exactly in the second case |
| SegmentAllocators.SegmentAllocator.ReclaimFromSub | xoz/alloc/segment_allocator.cpp:952-968 | Afterwards no block in the sub-block map is entirely free |
| SegmentAllocators.SegmentAllocator.ReclaimFromFr | xoz/alloc/segment_allocator.cpp:936-950 | Afterwards no free chunk ends where the array ends, with coalescing or without |
| SegmentAllocators.SegmentAllocator.Release | xoz/alloc/segment_allocator.cpp:732-739 | The array is empty or its last block is in use, the slack is gone, and all holdings keep their bytes |
| SegmentAllocators.SegmentAllocator.Reset | xoz/alloc/segment_allocator.cpp:702-730 | Nothing is in use, free or counted, and the array has no blocks |
| SegmentAllocators.SegmentAllocator.Realloc | xoz/alloc/segment_allocator.cpp:358-513 | On every path the segment has exactly SizeAfter bytes, its first min(old, new) bytes are those it had, no other holding has changed, and every byte of the array that the segment no longer has is zero. The extents that LeftAfter names stay in front, and are all if nothing has to be requested; the inline bytes are those of the request. The same size changes nothing, and a cut within the inline bytes touches nothing else. It succeeds if nothing has to be requested or the array before the call affords the request for Requested bytes. When it throws the segment keeps a front of its bytes, on exactly the extents that LeftAfter names |
| SegmentAllocators.SegmentAllocator.Expand | xoz/alloc/segment_allocator.cpp:371-460 | Growing: inline bytes and a last extent of sub-blocks are saved, freed and zeroed, and written back in front of the new bytes; exact size and inline bytes; when it succeeds; after a failure they are gone |
| SegmentAllocators.SegmentAllocator.ShrinkExtents | xoz/alloc/segment_allocator.cpp:462-512 | Shrinking below the inline bytes: whole extents go and are zeroed, the part of the last one that stays moves to a smaller allocation; exact size; a cut between extents succeeds, and one within an extent if the array affords the part that stays. With split threshold 0 and extents allowed, a cut within an extent of blocks never grows the array and succeeds for every well-formed request; after a failure that part is gone |
| SegmentAllocators.SegmentAllocator.CutPart | xoz/alloc/segment_allocator.cpp:487-511 | The part of a cut extent that stays is saved, the extent is freed and zeroed, and the part is written to what is allocated for it |
| SegmentAllocators.SegmentAllocator.PartFits | xoz/alloc/segment_allocator.cpp:487-511 | Where the blocks of an extent have been freed, with split threshold 0, a request for less than its bytes needs no growth |
| SegmentAllocators.SegmentAllocator.ShrinkInline | xoz/alloc/segment_allocator.cpp:422-430 | Shrinking within the inline bytes keeps their front and the ledger |
| SegmentAllocators.SegmentAllocator.InitializeFromExtents | xoz/alloc/segment_allocator.cpp:575-700 | Succeeds exactly if the extents lie in the array and no sub-block is in two of them; then the two maps hold exactly the other sub-blocks, and each gap is chopped into chunks of 65535 blocks and a rest |
| SegmentAllocators.SegmentAllocator.InitializeFromAllocated | xoz/alloc/segment_allocator.cpp:530-549 | The same for a list of segments, which become the ledger; throws also for more than 63 inline bytes; each gap is chopped into chunks of 65535 blocks and a rest |
| SegmentAllocators.SegmentAllocator.CollectBits | xoz/alloc/segment_allocator.cpp:580-598 | The bitmaps in use block by block; any shared bit is found |
| SegmentAllocators.SegmentAllocator.ProvideBits | xoz/alloc/segment_allocator.cpp:600-630 | The free bits are the complement of the bits in use; blocks without a free bit are not tracked |
| SegmentAllocators.SegmentAllocator.ProvideGaps | xoz/alloc/segment_allocator.cpp:632-697 | The gaps between the sorted extents become free chunks, those of more than 65535 blocks chopped into largest ones and a rest; only neighbours are compared, yet any overlap or extent out of bounds is found |
| Complement.GapChopped | xoz/alloc/segment_allocator.cpp:660-697 | A piece put behind the chunks so far merges with none of them, with coalescing or without, and keeps the gaps chopped into largest chunks |
| Complement.SortSorts | xoz/alloc/segment_allocator.cpp:577-578 | Sorting by block number keeps the extents |
| Complement.MeetingFulls | xoz/alloc/segment_allocator.cpp:648-652 | If two neighbours in order meet, the extents in use are not disjoint |
| Complement.ComplementBalanced | xoz/alloc/segment_allocator.cpp:580-697 | The gaps and the free bits own exactly what the extents in use do not |
| SegmentAllocators.SegmentAllocator.OneOwnerEach | xoz/alloc/segment_allocator.cpp:83-279 | In every reachable state each sub-block of the array is owned once: by a free chunk, a free bit, a holding or a failed request |
| SegmentAllocators.SegmentAllocator.LiveShareNothing | xoz/alloc/segment_allocator.cpp:83-279 | Two holdings never share a byte |
| Requests.SizeAfterRange | xoz/alloc/segment_allocator.cpp:358-513 | The size after a resize is sz or less than one granule more, and sz if the granule is not larger than the inline limit plus 1 |
| SegmentAllocators.SegmentAllocator.ExactStats | xoz/alloc/segment_allocator.cpp:741-806 | The counters equal the sums over the holdings, but for the count of extents: it misses one for each release that SplitsOne told to cut an extent and for each second part freed by DeallocSingleExtent; blocks in the array less those in use are the free chunks, up to what failed requests lost |
| Ownership.TakeBlocks | xoz/alloc/segment_allocator.cpp:825-832 | Handing out the front of a free chunk keeps one owner for each sub-block |
| Ownership.CutBlock | xoz/alloc/segment_allocator.cpp:921-934 | So does moving a free block to the sub-block map |
| Ownership.TakeBits | xoz/alloc/segment_allocator.cpp:868-872 | So does handing out free bits |
| Ownership.FreeBlocks | xoz/alloc/segment_allocator.cpp:336-339 | Freed blocks overlap no free chunk, and freeing them keeps one owner each |
| Ownership.FreeBits | xoz/alloc/segment_allocator.cpp:333-335 | The same for freed bits |
| Ownership.MendBlock | xoz/alloc/segment_allocator.cpp:952-968 | The same for a whole block that goes back to the free chunks |
| Ownership.GrowTail | xoz/alloc/segment_allocator.cpp:909-913 | The same for blocks added at the end |
| Ownership.ShrinkTail | xoz/alloc/segment_allocator.cpp:936-950 | The same for the last free chunk given back to the array |
| Ownership.OwnedOnce | xoz/alloc/segment_allocator.cpp:83-279 | What is owned has distinct byte positions, apart from those of everything else |
| Ledger.PassOn | xoz/alloc/segment_allocator.cpp:465-474 | Moving the last extent of one holding to another keeps the balance and the sums |
| FreeMaps.FreeMap.Alloc | xoz/alloc/free_map.cpp:61-205 | Fails without change exactly if no chunk has n or more than n plus threshold blocks, with the largest smaller chunk as hint; else takes the front of the smallest such chunk, of these the first in the index by count, and determines both indexes; a tidy map stays tidy |
| FreeMaps.FreeMap.Dealloc | xoz/alloc/free_map.cpp:207-292 | Rejects exactly the overlapping frees, without change; else adds the blocks, merges the neighbours that fit 16 bits, and enters the result in the index by count behind all chunks of its size while the others keep their order; with coalescing a map that is tidy within 65535 blocks stays so |
| FreeMaps.OldestFirst | xoz/alloc/free_map.cpp:61-292 | After a chunk is entered, a request takes the chunk that it would have taken before, if that is no larger; so among equal sizes the oldest is taken first |
| Witnesses.OldestChunk | xoz/alloc/free_map.cpp:61-292 | The input: 3 blocks at 10 are freed, then 3 at 0; a request for 3 gets those at 10 |
| FreeMaps.FreeMap.FailIfOverlap | xoz/alloc/free_map.cpp:311-340 | Comparing the two neighbours finds every overlap |
| FreeMaps.FreeMap.Release | xoz/alloc/free_map.cpp:43-59 | Removes exactly the listed chunks up to the first that is not there, and keeps the order by count of the others; a tidy map stays tidy |
| FreeMaps.FreeMap.EraseFromByCnt | xoz/alloc/free_map.cpp:300-309 | Removes exactly the one entry and keeps the order of the others |
| FreeMaps.FreeMap.Provide | xoz/alloc/free_map.cpp:28-33 | Adds the extent as a free does, to both indexes; throws exactly for an empty, sub-block or overlapping one |
| FreeMaps.FreedCounts | xoz/alloc/free_map.cpp:218-291 | A free adds exactly its blocks, whatever is merged |
| FreeMaps.FreedApart | xoz/alloc/free_map.cpp:218-291 | After a free no two chunks touch exactly if what was joined is at most 65535 blocks |
| FreeMaps.WithinWindow | xoz/alloc/free_map.cpp:218-291 | That is so whenever all chunks lie within 65535 blocks |
| FreeMaps.TakenApart | xoz/alloc/free_map.cpp:148-199 | Taking blocks keeps chunks from touching |
| FreeMaps.FreedTidy | xoz/alloc/free_map.cpp:218-291 | A free within a window of 65535 blocks keeps the invariant that no two chunks touch |
| FreeMaps.TakenCounts | xoz/alloc/free_map.cpp:148-199 | Taking blocks removes exactly these |
| FreeMaps.HintIsUsable | xoz/alloc/free_map.cpp:130-146 | A request for as many blocks as the hint says succeeds |
| SubBlockFreeMaps.SubBlockFreeMap.Alloc | xoz/alloc/subblock_free_map.cpp:106-219 | Takes exactly the n most significant free bits of the first block with the fewest sufficient free bits; fails exactly if no block has n; bins and map stay in step |
| SubBlockFreeMaps.SubBlockFreeMap.Dealloc | xoz/alloc/subblock_free_map.cpp:221-295 | Rejects exactly the frees of bits that are free already, without change; else the free bits are the union |
| SubBlockFreeMaps.SubBlockFreeMap.Provide | xoz/alloc/subblock_free_map.cpp:31-56 | Tracks a new block with its free bits; throws exactly for an empty extent, more than one block, or a known block |
| SubBlockFreeMaps.SubBlockFreeMap.Release | xoz/alloc/subblock_free_map.cpp:58-92 | Removes the listed whole blocks up to the first that is not there or not whole |
| SubBlockFreeMaps.TopBits | xoz/alloc/subblock_free_map.cpp:155-178 | The bit loop selects the n most significant free bits |
| SubBlockFreeMaps.MostSignificantUnique | xoz/alloc/subblock_free_map.cpp:155-178 | There is only one such choice |
| SubBlockFreeMaps.WithoutWith | xoz/alloc/subblock_free_map.cpp:221-295 | Freeing what was taken restores the free bits |
| TailAllocators.TailAllocator.Alloc | xoz/alloc/tail_allocator.cpp:17-23 | New blocks at the end of the array, exactly if it can grow by them |
| TailAllocators.TailAllocator.Dealloc | xoz/alloc/tail_allocator.cpp:25-33 | Gives the extent back exactly if it is the last one; else changes nothing |
| TailAllocators.TailAllocator.Reset | xoz/alloc/tail_allocator.cpp:44-50 | No blocks and no slack are left |
| BlockArrays.BlockArray.GrowByBlocks | xoz/blk/block_array.cpp:79-126 | Succeeds exactly if the slack or the remaining block numbers and bytes suffice; bytes that were there stay and new ones are zero; slack that suffices changes nothing but the count, else the real end moves by exactly RealGrowth |
| BlockArrays.BlockArray.ShrinkByBlocks | xoz/blk/block_array.cpp:128-158 | The last cnt blocks go; throws exactly for 0 or more than there are |
| BlockArrays.BlockArray.ReleaseBlocks | xoz/blk/block_array.cpp:160-170 | The slack goes and nothing else |
| BlockArrays.BlockArray.ImplGrow | xoz/blk/vector_block_array.cpp:12-24 | The buffer grows by a quarter more than asked, at least one block, if it over-allocates; the new bytes are zero |
| BlockArrays.SlackWraps | xoz/blk/vector_block_array.cpp:12-16 | In 16 bits the over-allocated count wraps exactly from 52429 blocks on, and then is less than asked |
| BlockArrays.BlockArray.CanGrowLess | xoz/blk/block_array.cpp:102-108 | An array that can grow can grow by less |
| BlockArrays.BlockArray.ReadExtent | xoz/blk/block_array.cpp:182-194 | The bytes read are those at the positions of the extent from start on, as many as there are |
| BlockArrays.BlockArray.WriteExtent | xoz/blk/block_array.cpp:207-219 | Exactly the positions of the extent from start on change, to the data |
| BlockArrays.BlockArray.ReadSuballocated | xoz/blk/block_array.cpp:266-318 | The sub-block loop reads all that was asked, in the order of the bits from the most significant on |
| BlockArrays.BlockArray.WriteSuballocated | xoz/blk/block_array.cpp:266-318 | The same for writing; nothing is left to copy |
| BlockArrays.BlockArray.ReadFullyAllocated | xoz/blk/block_array.cpp:320-335 | The bytes of an extent of whole blocks |
| Layout.ExtPosIncreasing | xoz/blk/block_array.cpp:266-318 | The positions of an extent rise strictly, so none comes twice |
| Layout.ExtPosCover | xoz/blk/block_array.cpp:266-318 | Each position lies in a sub-block that the extent owns |
| Layout.SegPosDistinct | xoz/io/iosegment.cpp:46-117 | Extents that share no sub-block have distinct byte positions |
| Layout.ExtPosSize | xoz/ext/extent.cpp:149-165 | An extent has as many positions as its size says |
| SegmentIo.IOSegment.RwRead | xoz/io/iosegment.cpp:46-117 | A read of any length anywhere is a slice of the concatenated extents and inline bytes |
| SegmentIo.IOSegment.RwWrite | xoz/io/iosegment.cpp:46-117 | A write of any length anywhere is an update of that string, and no byte outside the segment changes |
| SegmentIo.AbsPosToExt | xoz/io/iosegment.cpp:120-144 | The extent, the offset in it and what remains of it for a position |
| SegmentIo.CreateExtIndex | xoz/io/iosegment.cpp:18-34 | The index holds where each extent begins |
| SegmentIo.FillC | xoz/io/iosegment.cpp:150-158 | Every byte of the extents, and of the inline data if asked, becomes c; nothing else does |
| SegmentIo.IOSegment.ReadAll | xoz/io/iobase.cpp:22-43 | All bytes or, without moving the pointer, none |
| SegmentIo.IOSegment.WriteAll | xoz/io/iobase.cpp:22-43 | All bytes or, without any change, none |
| SegmentIo.CalcSeek | xoz/io/iobase.cpp:45-78 | Every seek lands at its target clamped to the limits, despite the 32-bit arithmetic |
| SegmentIo.IOSegment.LimitTo | xoz/io/iobase.cpp:80-110 | The window is cut to the source and the pointer is clamped to it |
| SegmentIo.IOSegment.Fill | xoz/io/iobase.cpp:148-156 | The bytes become c; where the room ends, whole batches of 64 are written first |
| SegmentIo.IOSegment.CopyIntoSelf | xoz/io/iobase.cpp:318-350 | The destination becomes what the source was, whichever way they overlap; both pointers advance; all else stays |
| SegmentIo.IOSegment.CopyIntoSelfFromStart | xoz/io/iobase.cpp:383-403 | The forward copy, which is right if the destination is not inside and behind the source |
| SegmentIo.IOSegment.CopyIntoSelfFromEnd | xoz/io/iobase.cpp:405-434 | The backward copy, which moves both pointers back for each chunk |
| SegmentIo.IOSegment.CopyInto | xoz/io/iobase.cpp:352-381 | The same between two segments that share no byte |
| Segments.Segment.Extend | xoz/segm/segment.h:89-104 | The extents are appended and the inline bytes replaced; throws exactly if there were inline bytes |
| Segments.Segment.RemoveLastExtent | xoz/segm/segment.h:106-112 | The last extent goes; throws exactly if there are inline bytes |
| Segments.Segment.ReserveInlineData | xoz/segm/segment.h:28-31 | The inline bytes get a length and keep their front |
| Splitting.Split | xoz/ext/extent.h:111-149 | The first part keeps the leading blocks or the most significant bits, the second the rest |
| Splitting.SplitPositions | xoz/ext/extent.h:111-149 | The bytes of an extent are those of its first part, then those of its second |
| Extents.OverlapIsShared | xoz/ext/extent.cpp:87-147 | The distance is refused exactly if the two extents share a sub-block |
| SegmentCodec.RoundTrip | xoz/segm/segment.cpp:168-503 | Any segment that can be written is read back equal, with exactly its words used, whatever follows an end marker |
| SegmentCodec.StructLaid | xoz/segm/segment.cpp:363-503 | The code of a segment is the one sequence of words with this layout: of each extent a header with flags, small count and direction, distance or high part of the block number at their bits, then the low half of a far block number, then a count or a bitmap with bit b for sub-block b; inline bytes behind a header with their size, low byte first, an odd last one in the header |
| SegmentCodec.ReadLaidOut | xoz/segm/segment.cpp:168-361 | Words with this layout are read as the segment, in every end mode that suits |
| SegmentCodec.BitmapWordBits | xoz/segm/segment.cpp:438-445 | The word of a bitmap is the one word that has bit b exactly if sub-block b is in it |
| FormatWitnesses.FarCount | xoz/segm/segment.cpp:399-447 | The words of an extent of 20 blocks at 1000: 0000 03e8 0014 |
| FormatWitnesses.FarSmallCount | xoz/segm/segment.cpp:399-447 | Of 3 blocks at 70000: 1801 1170 |
| FormatWitnesses.NearForwards | xoz/segm/segment.cpp:399-447 | Of a second extent 5 blocks behind the end of the first: 1405 |
| FormatWitnesses.NearBackwards | xoz/segm/segment.cpp:399-447 | Of a second extent that ends 6 blocks before the first: 2606 |
| FormatWitnesses.FarBitmap | xoz/segm/segment.cpp:399-447 | Of sub-blocks 0 and 15 of block 1000: 8000 03e8 8001 |
| FormatWitnesses.InlineBytes | xoz/segm/segment.cpp:450-490 | Of three inline bytes 61 62 63: c363 6261 |
| FormatWitnesses.FarCountBack | xoz/segm/segment.cpp:187-325 | The words 0000 03e8 0014 are read as 20 blocks at 1000 |
| SegmentCodec.EncodeInjective | xoz/segm/segment.cpp:363-503 | Different segments have different words |
| SegmentCodec.ReadBack | xoz/segm/segment.cpp:168-361 | The reader in each end mode accepts what was written |
| SegmentCodec.FootprintSize | xoz/segm/segment.cpp:44-97 | The predicted size is two bytes for each word that would be written; throws exactly if it cannot be written |
| SegmentCodec.WriteStruct | xoz/segm/segment.cpp:363-503 | Writes words with exactly the layout of the segment, bit by bit (LaidOut), and that is its code; throws exactly if an overlap, the inline size or the room forbids it |
| SegmentCodec.ReadStruct | xoz/segm/segment.cpp:168-361 | The loop computes what the recursive reader says, by ReadLaidOut the segment that the words are the layout of, and the checksum of the words used |
| SegmentCodec.CheckIsSum | xoz/segm/segment.cpp:358-360 | The checksum of writer and reader is congruent to the sum of the words |
| SegmentCodec.ExtRoundTrip | xoz/segm/segment.cpp:187-325 | One extent, near or far, forward or backward, with a small count, a count or a bitmap |
| SegmentCodec.BitmapRoundTrip | xoz/segm/segment.cpp:438-445 | A bitmap and its word determine each other |
| InetChecksum.FoldInetChecksum | xoz/mem/inet_checksum.h:28-34 | The loop ends and keeps the residue modulo 65535, and 0 only for 0 |
| InetChecksum.InetChecksumOfWords | xoz/mem/inet_checksum.h:45-59 | The sum of at most 65535 words does not overflow 32 bits |
| InetChecksum.InetChecksumOfIo | xoz/mem/inet_checksum.cpp:6-39 | Summing in batches of 64 bytes gives the sum of the whole; refused exactly beyond 65535 words |
| InetChecksum.GoodIffCongruent | xoz/mem/inet_checksum.h:93-108 | The stored checksum is accepted exactly if it is congruent to the sum |
| InetChecksum.RemoveUndoesAdd | xoz/mem/inet_checksum.h:102-108 | Removing a word after adding it keeps the residue |
| ContentParts.ContentPart.Resize | xoz/dsc/descriptor.cpp:810-921 | Every byte of the segment for any growth and shrinkage, its exact size, and its end marker unless the part is empty (Valid); the hidden bytes are kept where KeepsHidden says so of the sizes before the call; other holdings keep their bytes; it succeeds if the size is in range and the array before the call affords the requests to come (Succeeds); after a failure the segment has a front of its bytes; one more segment, of exactly the hidden bytes, stays allocated exactly if 1 MiB or more hidden bytes were parked on disk |
| ContentParts.ContentPart.CanBeStored | xoz/dsc/descriptor.cpp:810-921 | A valid part that is not empty meets what the codec of descriptors asks of a part, its end marker included |
| ContentParts.ContentPart.Grow | xoz/dsc/descriptor.cpp:857-867 | Growing copies the hidden bytes within the segment, whose size is exactly known; after a failure a front of the bytes stays |
| ContentParts.ContentPart.ShrinkInMemory | xoz/dsc/descriptor.cpp:875-893 | Shrinking keeps few hidden bytes in memory; exact size; after a failure a front of the bytes stays |
| ContentParts.ContentPart.ShrinkOnDisk | xoz/dsc/descriptor.cpp:895-915 | Shrinking keeps many hidden bytes in another segment, which stays in the ledger; exact size; after a failure a front of the bytes stays |
| ContentParts.ExactResize | xoz/dsc/descriptor.cpp:810-921 | If the sizes are exact, the hidden bytes and the first min(old, new) present bytes are kept |
| ContentParts.HiddenSurvive | xoz/dsc/descriptor.cpp:810-921 | For any extents, inline bytes, request and new space: the hidden bytes survive whatever they are exactly if there are none, the size stays, or the segment of SizeAfter bytes is as large as the part and, when shrinking, was so before |
| ContentParts.NothingHidden | xoz/dsc/descriptor.cpp:810-921 | Without hidden bytes the first min(old, new) bytes are kept |
| SegmentBlockArrays.SegmentBlockArray.GrowByBlocks | xoz/blk/block_array.cpp:79-126 | The bytes that were there are a prefix of the new ones, the blocks are exactly the bytes of the segment. Slack that suffices is used and nothing else changes; else the segment has exactly SizeWith bytes, on the extents it had, but for a last one of sub-blocks that realloc moves. It succeeds if slack suffices or the background before the call grants the request; a failed growth leaves the segment as it was, or, with realloc, without a last extent of sub-blocks, or with more blocks than 65535 |
| SegmentBlockArrays.SegmentBlockArray.ImplGrow | xoz/blk/segment_block_array.cpp:14-62 | The segment becomes at least as much larger as asked, of exactly SizeWith bytes, by realloc or by a second segment; the extents it keeps; what it is after a failure |
| SegmentBlockArrays.SegmentBlockArray.ShrinkByBlocks | xoz/blk/block_array.cpp:128-158 | Fails exactly for 0, for more blocks than there are, or if the extents, slack and count mean that more than 65535 blocks are given back: then these are gone from the segment and the array still counts them. Else accessible blocks keep their bytes, exactly whole extents go, and what is still owed to the background is less than its last extent. No byte of the background changes |
| SegmentBlockArrays.SegmentBlockArray.ReleaseBlocks | xoz/blk/segment_block_array.cpp:144-148 | The same for the slack alone; what is still owed is less than one block or sub-block of the background; no byte of the background changes; an extent is split, and the count of extents wrong by one more, exactly if SplitsOne says so of the extents before the call |
| SegmentBlockArrays.SegmentBlockArray.ImplShrink | xoz/blk/segment_block_array.cpp:68-142 | The blocks given back are exactly those computed from the extents, slack and count before; they are refused exactly if 16 bits do not count them; the positions that stay are a front of those before, and no byte changes; when an extent is split |
| SegmentBlockArrays.SegmentBlockArray.ImplRead | xoz/blk/segment_block_array.cpp:150-153 | A read is a slice of the bytes of the segment |
| SegmentBlockArrays.SegmentBlockArray.ImplWrite | xoz/blk/segment_block_array.cpp:155-158 | A write is an update of them, and no other byte of the background changes |
| SegmentBlockArrays.SegmentBlockArray.GiveBack | xoz/blk/segment_block_array.cpp:68-142 | For any geometry: the bytes that stay, those that cannot be cut, that no byte of the background changes, and whether an extent is split |
| SegmentBlockArrays.ResetTail | xoz/alloc/tail_allocator.cpp:44-50 | A reset on a nested array empties its segment and changes no byte of the background; it succeeds, and the array knows, exactly up to 65535 blocks |
| SegmentBlockArrays.CutOffCount | xoz/blk/block_array.h:217-223 | With a count cut off to 16 bits the array agrees with its segment exactly if at most 65535 blocks were given back |
| Geometry.WholeIffMultiple | xoz/blk/segment_block_array.cpp:68-142 | Every segment of whole foreground blocks stays one under every cut, with or without release, exactly if the smallest background piece (block, or sub-block if there may be any) is a multiple of the foreground block |
| Geometry.HalfABlockLeft | xoz/blk/segment_block_array.cpp:68-142 | The input: blocks of 128 bytes on blocks of 64 |
| Witnesses.LoseHidden | xoz/dsc/descriptor.cpp:810-921 | The input, from an empty array and with the default request: the 20 hidden bytes are not those that a resize from 80 to 90 present bytes leaves hidden |
| Witnesses.LeakParked | xoz/dsc/descriptor.cpp:895-915 | The input: a part with 1 MiB of hidden bytes is shrunk and then emptied, and 1 MiB stays in use |
| Witnesses.GiveBackTooMany | xoz/blk/segment_block_array.cpp:68-142 | The input: 70000 blocks of 2 bytes are given back, which is refused; the segment is empty and the array still counts 70000 |
| Witnesses.ReleaseHalves | xoz/blk/segment_block_array.cpp:68-142 | The input: a release splits an extent; when all is freed the 64-bit count of extents is 2^64 - 1 |
| Witnesses.FreeHalves | xoz/dsc/descriptor_set.cpp:438-539 | The same when an extent is split and its parts are freed as single extents |
| DescriptorCodec.DscRoundTrip | xoz/dsc/descriptor.cpp:212-332 | A descriptor is read back, but for empty parts at its end, with exactly its words used, whatever follows |
| DescriptorCodec.DscLaid | xoz/dsc/descriptor.cpp:479-585 | The code of a descriptor is the one sequence of words with this layout: a first word with content flag, low bits of the size, id flag and type; an id field, low half first, with bit 5 of the size above 31 bits of id; the count of parts less one, and for each its size of 15 or 31 bits and the words of its segment; the extended type; the internal data |
| DescriptorCodec.ReadDscLaidOut | xoz/dsc/descriptor.cpp:212-332 | Words with this layout are read as the descriptor, whatever follows |
| FormatWitnesses.PersistentId | xoz/dsc/descriptor.cpp:528-542 | The words of a descriptor of type 1 with id 5: 0201 0005 0000 |
| FormatWitnesses.PersistentIdBack | xoz/dsc/descriptor.cpp:233-238 | These words are loaded as that descriptor |
| FormatWitnesses.AllFields | xoz/dsc/descriptor.cpp:479-585 | The words of a descriptor with id, a part, an extended type and internal data |
| DescriptorCodec.StreamRoundTrip | xoz/dsc/descriptor_set.cpp:215-247 | Descriptors with any padding between them are read back in order, but for those stored as a single zero word |
| DescriptorCodec.StreamKeepsAll | xoz/dsc/descriptor_set.cpp:215-247 | All of them are read back exactly if none is stored as a single zero word |
| DescriptorCodec.WriteDsc | xoz/dsc/descriptor.cpp:479-585 | Writes words with exactly the layout of the descriptor (DscLaidOut), and that is its code; throws exactly if its id, sizes, parts, segments or the room forbid it |
| DescriptorCodec.WriteParts | xoz/dsc/descriptor.cpp:365-410 | Writes size fields of 15 or 31 bits and the segments of the parts |
| DescriptorCodec.DscFootprint | xoz/dsc/descriptor.cpp:587-641 | The predicted size is that of the code; throws exactly for internal data that is too long or a segment that cannot be written |
| DescriptorCodec.CountStored | xoz/dsc/descriptor.cpp:643-657 | Counts the parts up to the last that is not empty |
| DescriptorCodec.ChkContentParts | xoz/dsc/descriptor.cpp:986-1025 | Whether no part claims more than its segment has or its field counts |
| DescriptorCodec.LoadStream | xoz/dsc/descriptor_set.cpp:215-247 | The loop loads what the recursive reader says, by ReadDscLaidOut each descriptor that the words are the layout of |
| SetTraversal.WalkPreOrder | xoz/dsc/descriptor_set.h:470-508 | The explicit stack visits the sets in recursive pre-order with their depths, up to the first visit that stops |
| SetTraversal.WalkPostOrder | xoz/dsc/descriptor_set.h:470-508 | The same in post-order |
| SetTraversal.PostIsMirroredPre | xoz/dsc/descriptor_set.h:470-508 | Post-order is pre-order of the mirrored tree backwards |
| SetTraversal.EachOnce | xoz/dsc/descriptor_set.h:470-508 | In either order the visits are, as a multiset, one for each set of the tree with its depth |
| SetTraversal.VisitedAt | xoz/dsc/descriptor_set.h:470-508 | The set at the end of a path from the root is visited at the place PostIndex of the path |
| SetTraversal.ChildrenFirst | xoz/dsc/descriptor_set.h:470-508 | The place of a child comes before that of its parent |
| SetTraversal.PlacesDiffer | xoz/dsc/descriptor_set.h:470-508 | Different paths have different places |
| SetTraversal.UptoIsPrefix | xoz/dsc/descriptor_set.h:470-508 | What is visited is a prefix, and everything if no visit stops |
| SetChecksum.DescriptorSet.Load | xoz/dsc/descriptor_set.cpp:235-243 | A loaded descriptor adds its checksum to the running one |
| SetChecksum.DescriptorSet.Add | xoz/dsc/descriptor_set.cpp:636-670 | The running checksum stays congruent to the header word plus the checksums of the owned descriptors, and what is to be added is exactly known; throws exactly for an id that is there |
| SetChecksum.DescriptorSet.Remove | xoz/dsc/descriptor_set.cpp:719-749 | The same when a descriptor is erased or moved out |
| SetChecksum.DescriptorSet.MoveOut | xoz/dsc/descriptor_set.cpp:673-685 | A descriptor changes sets with its checksum, is to be added in the new one and no longer to be written in the old one; or nothing changes |
| SetChecksum.DescriptorSet.Clear | xoz/dsc/descriptor_set.cpp:751-771 | Without descriptors the running checksum stands for the header word |
| SetChecksum.DescriptorSet.Flush | xoz/dsc/descriptor_set.cpp:567-596 | What is stored is exactly the folded 32-bit sum over header word and descriptors; it passes the test that loading makes exactly if the sum wrapped around a multiple of 65535 times |
| SetChecksum.SmallFlush | xoz/dsc/descriptor_set.cpp:573-587 | A flush of at most 32768 descriptors does not wrap |
| SetChecksum.OneTooMany | xoz/dsc/descriptor_set.cpp:573-587 | A flush of 32769 can wrap once |
| SetChecksum.PassesIffAgrees | xoz/dsc/descriptor_set.cpp:190-202 | The test accepts exactly the congruent checksums |

## Left out

- The file backend, hexdumps, tracing, printing, demos and tools; `VectorBlockArray` is the backend modelled.
- Averages and inexact statistics: the average internal fragmentation, extents per segment, and the counts of sub-blocks owned and allocated in the sub-block map.
- The guards that throw when an allocator is blocked or an object not initialized, and `manage_block_array` called twice.
- Block sizes are any multiple of 16 up to 65536, or less than 16 bytes; the code allows powers of two only.
- 32-bit wrap-around of sizes in requests: request sizes are unbounded numbers, and one that the array cannot serve is refused.
- The grow and shrink call counters, and the taint and copy protection of the objects.
- Assertions that integers fit 16 bits are exceptions here, also in a shrink of a `SegmentBlockArray` and in `InetChecksumOfIo`.
- SegmentBlockArrays.SegmentBlockArray.constructor: takes the exceptions for inline data and for a size that is no whole number of blocks as preconditions, because a constructor has no result; it also asks that the two geometries fit, which the code leaves to its callers.
- Extent.Compare, `move_to` and the packing of the suballocation flag into the block number: extents are values with two cases, and bitmaps are sets of bit numbers.
- Reading and writing through streams instead of memory (`rw_operation_exact_sz_iostream`), and ios over plain memory or files.
- Checksums over an odd number of bytes, and a descriptor's own checksum; a set's checksum is modelled over the checksums its descriptors have.
- Subclasses of descriptors: the hooks that read and write internal data, update sizes or content parts, and the check that a set has a set's type; internal data is a list of words.
- The temporal ids that loaded descriptors get, and the id manager: persistent ids in use are a set.
- The descriptor set's space for its descriptors, its extents to remove and zero, and its header fields besides the reserved word and the checksum; `assign_persistent_id`; changes of the reserved word.
- Real checksums of loaded sets that fail the test: `Load` adds descriptors after the test has passed.
- SegmentAllocators.SegmentAllocator.InitializeFromExtents: extents are taken to be non-empty and of at most 65535 blocks, as a loaded extent in use is.
- SegmentAllocators.SegmentAllocator.InitializeFromAllocated: the same.
- SegmentAllocators.SegmentAllocator.Dealloc: takes a segment that is in use; what the code does with another one, an exception if it overlaps free space, is modelled for the free maps only (`FreeMap.Dealloc`, `SubBlockFreeMap.Dealloc`).
- SegmentAllocators.SegmentAllocator.DeallocSingleExtent: takes an extent in use or the second part of one, as its callers pass it.
- BlockArrays.BlockArray.GrowByBlocks: a real growth beyond 65535 blocks, a block number beyond 26 bits and a buffer beyond 4 GiB less 64 bytes end with an exception, where the code has assertions or unchecked arithmetic.
- BlockArrays.BlockArray.ImplGrow: the same; for an over-allocated count that wraps in 16 bits see `SlackWraps`.
- SegmentBlockArrays.SegmentBlockArray.ImplGrow: a growth by more than 65535 blocks, after rounding, ends with an exception where the code asserts the 16-bit count.
- SegmentIo.IOSegment.WriteAll: an io that was turned read-only, which refuses every write, is not modelled.
- A second allocator over a `SegmentBlockArray`, as a descriptor set has one: the allocator is proved over the vector array. What its tail can do there is `ShrinkByBlocks`, `ReleaseBlocks` and `ResetTail`.
- DescriptorCodec.WriteDsc: the room is compared once with the whole size, where the code throws in the middle of the words that are too many.
- The trampoline and header of the file, the index cache, and the runtime context.

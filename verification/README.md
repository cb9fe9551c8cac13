# Verification of the eLua firmware cores

A Dafny model of the parts of the Mizar32 eLua firmware that keep intricate state, and proofs of what they
promise. Each source file that is modelled changes its state step by step, and so does the model: classes with
fields, loops over arrays and maps of addressed memory. Ghost state says what the fields stand for.

| part | modules |
|---|---|
| dlmalloc, as configured for 32-bit words without mmap, footers and locks | `Powers`, `BinBits`, `TreeIndex`, `Rings`, `SizeTrie`, `TreeBins`, `SmallBins`, `FreeChunkLists`, `BoundaryTags`, `Segments`, `HeapGrowth`, `SystemMemory`, `HeapFacts`, `ChunkContents`, `DlMalloc` |
| FatFs: allocation table, window, files, long names | `FatEntries`, `FatChains`, `FatVolume`, `FatContent`, `FatFile`, `LongNames` |
| the line buffer of GNU ed, with undo | `Rings`, `UndoHistory`, `EdState`, `EdUndo`, `EdBuffer` |
| the write-once file system WOFS | `WofsLog`, `WofsScan`, `Wofs` |
| the simple allocator | `SimpleBlocks`, `SimpleAllocator` |
| the queue of Lua interrupts | `InterruptQueue` |
| the serial multiplexer and its rings | `CharBuffers`, `Sermux` |
| the remote procedure call codec | `Eluarpc` |
| the XMODEM receiver | `Crc`, `Xmodem` |

Memory is a map from addresses to what lies there: for dlmalloc, every address that is a multiple of 8 has the
words that can be the head, foot and links of a chunk; for ed, every address is a line node. That a node is freed
shows as its address leaving the map, so that a use after it would not verify. A class invariant `Valid` (for the
FAT volume, `Coherent`) holds between any two operations, and every operation keeps it; so what its contract
says holds after every run. Ghost parameters name what the caller knows already, such as the place of a block in
its list.

For dlmalloc, the board is a list of regions of memory, of any number and in any order, and the function that hands
them out is part of the model. In the interrupt queue, lists of events say what happens between two steps of the hook.
What XMODEM receives is a sequence of bytes and of silences.

## Model

| member | source | states |
|---|---|---|
| `EdBuffer.Buffer.UndoTwice` | elua_mizar32a_debug_sample/src/gnu-ed-1.16/buffer.c:650-690 | Undoing twice gives back the state before: every node in memory with its links, the node order, both address pairs, the modified flags, the history, and the stack up to which of the two marks of a move an entry carries |
| `EdBuffer.Buffer.Undo` | elua_mizar32a_debug_sample/src/gnu-ed-1.16/buffer.c:650-690 | Fails, changing nothing, exactly when nothing is recorded or undo is disabled; otherwise nodes, text, current and last address and modified flag are those of the last clear, and the stack records the inverse history |
| `EdBuffer.Buffer.UndoEntries` | elua_mizar32a_debug_sample/src/gnu-ed-1.16/buffer.c:661-683 | Whatever insertions, deletions and moves are recorded, taking them off last first leads back to the node order before the first one, and what is left is a history of the same kind that leads forward again |
| `EdUndo.UndoneInsertion` | elua_mizar32a_debug_sample/src/gnu-ed-1.16/buffer.c:665-666 | An insertion is undone by the links of its two end nodes alone; the nodes taken out still point to where they were |
| `EdUndo.UndoneDeletion` | elua_mizar32a_debug_sample/src/gnu-ed-1.16/buffer.c:667-669 | A deletion is undone by the links that the detached nodes have kept |
| `EdUndo.UndoneMove` | elua_mizar32a_debug_sample/src/gnu-ed-1.16/buffer.c:670-674 | A move is undone by exchanging four ends, also when source and destination have a neighbour in common |
| `EdBuffer.Buffer.ClearUndoStack` | elua_mizar32a_debug_sample/src/gnu-ed-1.16/buffer.c:591-611 | Frees exactly the nodes that only undoing could bring back, each once; text and yanked lines stay; from now on undoing leads to this state |
| `EdBuffer.Buffer.ResetUndoState` | elua_mizar32a_debug_sample/src/gnu-ed-1.16/buffer.c:614-619 | Clears the stack and disables undo |
| `EdBuffer.Buffer.SearchLineNode` | elua_mizar32a_debug_sample/src/gnu-ed-1.16/buffer.c:535-558 | For every address from 0 to the last: the node at that address in the order of the list, from whichever of three starting points is nearest; the cursor is valid after it |
| `EdBuffer.Buffer.DeleteLines` | elua_mizar32a_debug_sample/src/gnu-ed-1.16/buffer.c:262-279 | The text without the lines of the range, which are now the yanked lines; current and last address and modified flag as the source sets them; the deletion is recorded |
| `EdBuffer.Buffer.MoveLines` | elua_mizar32a_debug_sample/src/gnu-ed-1.16/buffer.c:382-423 | The text with the range put in again after the given line, or unchanged when it stands there already; current address in all three cases; yanked lines stay |
| `EdBuffer.Buffer.CopyLines` | elua_mizar32a_debug_sample/src/gnu-ed-1.16/buffer.c:228-258 | The text with a copy of the range after the given line, also when that line lies inside of the range |
| `EdBuffer.Buffer.PutLines` | elua_mizar32a_debug_sample/src/gnu-ed-1.16/buffer.c:468-493 | The text with all yanked lines after the given line; fails, changing nothing, exactly when nothing is yanked |
| `EdBuffer.Buffer.YankLines` | elua_mizar32a_debug_sample/src/gnu-ed-1.16/buffer.c:562-580 | The yanked lines are the lines of the range, and the text stays |
| `EdBuffer.Buffer.JoinLines` | elua_mizar32a_debug_sample/src/gnu-ed-1.16/buffer.c:350-378 | One line with the text of all lines of the range in place of them; they are yanked |
| `EdBuffer.Buffer.AppendLines` | elua_mizar32a_debug_sample/src/gnu-ed-1.16/buffer.c:112-147 | The text with the typed lines, up to a period, the end or an unfinished line, after or before the given line; the result tells which of these ended it |
| `EdBuffer.Buffer.PutSbufLine` | elua_mizar32a_debug_sample/src/gnu-ed-1.16/buffer.c:498-531 | The first line of the input becomes the line after the current one; nothing changes when it has no end |
| `EdBuffer.Buffer.GetSbufLine` | elua_mizar32a_debug_sample/src/gnu-ed-1.16/buffer.c:296-326 | The text of a line is what was written for it, wherever the scratch file stands |
| `EdBuffer.Buffer.GetLineNodeAddr` | elua_mizar32a_debug_sample/src/gnu-ed-1.16/buffer.c:283-292 | The address of a node of the list, -1 for other nodes; but 0 for any node when the buffer is empty |
| `Rings.Detached` | elua_mizar32a_debug_sample/src/gnu-ed-1.16/buffer.c:71-73 | Linking across a stretch takes it out of the circle; the stretch still points at both of its neighbours |
| `Rings.Attached` | elua_mizar32a_debug_sample/src/gnu-ed-1.16/buffer.c:71-73 | A detached stretch finds its way back by what its ends point at |
| `DlMalloc.Malloc.constructor` | elua_mizar32a_debug_sample/src/dlmalloc.c:2474-2496 | One top chunk in the first segment, which is the front of a region, empty bins, the break behind it: the invariant holds |
| `DlMalloc.Malloc.Malloc` | elua_mizar32a_debug_sample/src/dlmalloc.c:3124-3258 | Returns 0 exactly when no free chunk is large enough, the top chunk would be used up, and the system has no memory either, and then no chunk changes; otherwise one chunk more is in use, of the size for the request and less than 16 bytes more, aligned, and not in use before; it is a smallest free chunk that fits, unless the victim fits a small request; contents of all chunks in use stay |
| `DlMalloc.Malloc.MallocSmall` | elua_mizar32a_debug_sample/src/dlmalloc.c:3155-3207 | Serves a small request from the bins: a smallest free chunk that fits when the victim does not; otherwise only one that leaves no chunk over |
| `DlMalloc.Malloc.TmallocLarge` | elua_mizar32a_debug_sample/src/dlmalloc.c:3014-3082 | A smallest fit among all free chunks; 0 only if no tree chunk fits, or the victim fits and none of them is smaller |
| `DlMalloc.Malloc.TmallocSmall` | elua_mizar32a_debug_sample/src/dlmalloc.c:3085-3120 | A smallest chunk of all tree bins |
| `DlMalloc.Malloc.Free` | elua_mizar32a_debug_sample/src/dlmalloc.c:3262-3369 | Exactly the given chunk is not in use any more; free neighbours are joined, and the invariant (tiling, tags, no neighbouring free chunks, each free chunk in its one place) holds; contents of the others stay |
| `DlMalloc.Malloc.Dispose` | elua_mizar32a_debug_sample/src/dlmalloc.c:2943-3009 | The same for chunks that the allocator itself gives back |
| `DlMalloc.Malloc.TryReallocChunk` | elua_mizar32a_debug_sample/src/dlmalloc.c:3391-3468 | Succeeds exactly when the chunk is large enough, or is with the free space behind it; the new size is less than 16 bytes more than needed; contents of all chunks in use stay |
| `DlMalloc.Malloc.Realloc` | elua_mizar32a_debug_sample/src/dlmalloc.c:3765-3808 | Stays in place exactly when that is possible; for at least one byte it fails exactly when the request is too large, or there is no room behind and none to allocate, and then changes nothing; the contents up to the smaller size are found at the new address; no other chunk in use changes; for no bytes the memory is freed |
| `DlMalloc.Malloc.AllocateAligned` | elua_mizar32a_debug_sample/src/dlmalloc.c:3480-3541 | A chunk at a multiple of the power of two, of the size for the request and at most 16 bytes more; what is cut off on both sides is free again; fails exactly when the larger request does, or the sum is too large |
| `DlMalloc.Malloc.RoundAlignment` | elua_mizar32a_debug_sample/src/dlmalloc.c:3472-3479 | For every alignment for which the loop ends: the least power of two from 16 on that is at least the alignment |
| `DlMalloc.RoundingEndsUpTo` | elua_mizar32a_debug_sample/src/dlmalloc.c:3475-3479 | Doubling from 16 in machine words ever reaches an alignment if and only if that is at most 2^31 |
| `DlMalloc.Malloc.Memalign` | elua_mizar32a_debug_sample/src/dlmalloc.c:3470-3542 | Rounding and allocating together: the address is a multiple of a power of two that is at least the alignment |
| `DlMalloc.Malloc.SysAlloc` | elua_mizar32a_debug_sample/src/dlmalloc.c:2615-2821 | Returns a chunk exactly when the system grants what is asked for; the memory granted becomes part of the top chunk, of the front of a segment, or a new segment; otherwise nothing changes but the break, and that only to where there is no memory any more |
| `DlMalloc.Malloc.MoreCore` | elua_mizar32a_debug_sample/src/dlmalloc.c:2661-2747 | Which requests to the system are made, and exactly when memory is found; what is found is in no segment, behind the break, and enough; when the first grant leads elsewhere, is too little, and is not followed by another, nothing is found, and nothing is ever granted again |
| `DlMalloc.Malloc.TwoGrants` | elua_mizar32a_debug_sample/src/dlmalloc.c:2697-2714 | Two grants make up memory for the heap when the second one follows the first |
| `DlMalloc.Malloc.SoundOnBoard` | elua_mizar32a_debug_sample/src/dlmalloc.c:2684-2717 | With at most two regions, of less than 2 GiB in all, asking for memory always goes well, for every request that does not reach around the end of all addresses: the condition Sound of Malloc, Realloc and Memalign holds |
| `DlMalloc.SecondGrowth` | elua_mizar32a_debug_sample/src/dlmalloc.c:2686-2703 | Both requests together ask for enough, and by how much the second one can exceed the top chunk |
| `DlMalloc.SecondTooLarge` | elua_mizar32a_debug_sample/src/dlmalloc.c:2697-2714 | With 2 GiB in the top chunk, 256 bytes are taken for enough |
| `DlMalloc.Malloc.NoMoreMemory` | elua_mizar32a_debug_sample/src/newlib/stubs.c:445-470 | Once a request has been refused, the system has nothing for any other one, however small |
| `SystemMemory.Sbrk` | elua_mizar32a_debug_sample/src/newlib/stubs.c:434-473 | The loop over the regions gives the front of the first region with room, and stays there |
| `SystemMemory.Grant` | elua_mizar32a_debug_sample/src/newlib/stubs.c:457-468 | What is granted lies in its region if and only if its end does not wrap around |
| `SystemMemory.GrantWraps` | elua_mizar32a_debug_sample/src/newlib/stubs.c:457-468 | A request for more than all addresses behind a region is granted, and the same memory is granted again after it |
| `SystemMemory.RefusedForEver` | elua_mizar32a_debug_sample/src/newlib/stubs.c:445-470 | A refused request leaves nothing for any later one |
| `SystemMemory.SecondFollows` | elua_mizar32a_debug_sample/src/dlmalloc.c:2701-2703 | A second grant follows the first if and only if the same region has room for both, or the next region begins just where the first grant ends |
| `SystemMemory.SecondElsewhere` | elua_mizar32a_debug_sample/src/dlmalloc.c:2701-2703 | With three regions the second grant can lie in the last one, although it is taken for the continuation of the first |
| `DlMalloc.Malloc.ExtendTop` | elua_mizar32a_debug_sample/src/dlmalloc.c:2777-2787 | Memory behind the segment of the top chunk makes that larger |
| `DlMalloc.Malloc.PrependAlloc` | elua_mizar32a_debug_sample/src/dlmalloc.c:2518-2556 | Memory in front of a segment: its front is in use, the rest is joined with a free first chunk |
| `DlMalloc.Malloc.AddSegment` | elua_mizar32a_debug_sample/src/dlmalloc.c:2560-2610 | Memory elsewhere: the old segment is closed with its record and fenceposts, the old top chunk is an ordinary free chunk, and the new segment holds the new top chunk; chunks in use stay |
| `HeapGrowth.PlaceFences` | elua_mizar32a_debug_sample/src/dlmalloc.c:2588-2598 | The fenceposts lie behind the record, at least two of them, and nothing in front of them changes |
| `HeapGrowth.SegmentAdded` | elua_mizar32a_debug_sample/src/dlmalloc.c:2560-2610 | With a new segment, closing the first one keeps all segments tiled, and every chunk in use |
| `HeapGrowth.Appended` | elua_mizar32a_debug_sample/src/dlmalloc.c:2781-2787 | A longer first segment is tiled by the same chunks and a larger top chunk |
| `HeapGrowth.Prepended` | elua_mizar32a_debug_sample/src/dlmalloc.c:2794-2801 | A segment that begins earlier is tiled with one chunk more |
| `HeapFacts.Tiled` | elua_mizar32a_debug_sample/src/dlmalloc.c:2001-2029 | In every segment, each address from the base to the end of the chunks lies in exactly one chunk |
| `HeapFacts.FreeApart` | elua_mizar32a_debug_sample/src/dlmalloc.c:1842-1862 | A free chunk is followed by a chunk in use, and preceded by one or by the start of its segment; it does not border on the top chunk |
| `HeapFacts.UsedFacts` | elua_mizar32a_debug_sample/src/dlmalloc.c:1831-1839 | A chunk in use: its successor says that it is in use |
| `HeapFacts.PreviousUsed` | elua_mizar32a_debug_sample/src/dlmalloc.c:1831-1839 | When a chunk says that the one before is free, that one begins where the foot tells |
| `HeapFacts.VictimSplit` | elua_mizar32a_debug_sample/src/dlmalloc.c:3427-3435 | Growing into the front of the free chunk behind keeps the heap tiled |
| `BoundaryTags.Freed` | elua_mizar32a_debug_sample/src/dlmalloc.c:3285-3344 | Joining a freed chunk with free neighbours on both sides keeps a segment tiled, with one free chunk in place of up to three |
| `BoundaryTags.FreedIntoTop` | elua_mizar32a_debug_sample/src/dlmalloc.c:3314-3325 | The same when the chunk lies before the top chunk, which begins earlier then |
| `ChunkContents.IntactOf` | elua_mizar32a_debug_sample/src/dlmalloc.c:3124-3468 | What writes only heads, links of free chunks, feet of free chunks and what is outside of all chunks keeps the contents of every chunk in use |
| `ChunkContents.CopyWords` | elua_mizar32a_debug_sample/src/dlmalloc.c:3800-3801 | The words from one place are found at the other, and nothing else changes |
| `SizeTrie.AddedShape` | elua_mizar32a_debug_sample/src/dlmalloc.c:2226-2276 | A chunk linked in where the search for its size ends makes the bin a trie of exactly one chunk more |
| `SizeTrie.PutSorted` | elua_mizar32a_debug_sample/src/dlmalloc.c:2226-2276 | That trie agrees with the path bits, and holds each size once |
| `SizeTrie.RemovedShape` | elua_mizar32a_debug_sample/src/dlmalloc.c:2294-2356 | Unlinking a chunk, from a ring, as the head of one, or as a node that its rightmost leaf replaces, leaves a well-linked trie of exactly the other chunks |
| `SizeTrie.RemovedSorted` | elua_mizar32a_debug_sample/src/dlmalloc.c:2294-2356 | That trie still agrees with the path bits |
| `TreeBins.FindReplacement` | elua_mizar32a_debug_sample/src/dlmalloc.c:2295-2323 | The chunk that takes the place of an unlinked one: the one before it in its ring, or the rightmost leaf below |
| `TreeBins.InsertLargeChunk` | elua_mizar32a_debug_sample/src/dlmalloc.c:2226-2276 | The tree bins hold exactly one chunk more, each is a trie of the sizes of its bin, and a bit of the map is set exactly when its bin is not empty |
| `TreeBins.UnlinkLargeChunk` | elua_mizar32a_debug_sample/src/dlmalloc.c:2294-2356 | The tree bins hold exactly one chunk less, with the same invariant |
| `TreeBins.SearchLarge` | elua_mizar32a_debug_sample/src/dlmalloc.c:3014-3060 | The chunk found is a smallest fit of all tree bins; none is found exactly when none fits |
| `TreeBins.SearchSmall` | elua_mizar32a_debug_sample/src/dlmalloc.c:3085-3100 | The chunk found is a smallest one of all tree bins |
| `TreeBins.SearchBin` | elua_mizar32a_debug_sample/src/dlmalloc.c:3020-3042 | Going down along the bits of the size: nothing passed by is better than what was kept, but for the last right subtree that was passed |
| `TreeBins.SearchStep` | elua_mizar32a_debug_sample/src/dlmalloc.c:3024-3041 | One step of that search keeps its invariant |
| `TreeBins.BestInBin` | elua_mizar32a_debug_sample/src/dlmalloc.c:3043-3060 | A best fit of the first bin that has a fit is a best fit of all bins |
| `TreeBins.NextBin` | elua_mizar32a_debug_sample/src/dlmalloc.c:3044-3049 | The lowest set bit behind a bit of the map, found by the tricks on words, is the next bin that is not empty |
| `TreeIndex.IndexRange` | elua_mizar32a_debug_sample/src/dlmalloc.c:1459-1475 | The branch-free index of every size is the bin whose range of sizes it lies in |
| `TreeIndex.BinsInOrder` | elua_mizar32a_debug_sample/src/dlmalloc.c:1459-1490 | Sizes of lower bins are smaller |
| `TreeIndex.NextKey` | elua_mizar32a_debug_sample/src/dlmalloc.c:3022-3040 | The top bit of the shifted size tells in which half of the range of a subtrie the size lies |
| `BinBits.IndexOfBit` | elua_mizar32a_debug_sample/src/dlmalloc.c:1546-1556 | The number of a single bit, found by halving |
| `BinBits.LeastBitOf` | elua_mizar32a_debug_sample/src/dlmalloc.c:1508 | The lowest set bit of a word |
| `BinBits.LeftOfBit` | elua_mizar32a_debug_sample/src/dlmalloc.c:1511 | Exactly the bits left of a bit remain |
| `SmallBins.InsertSmallChunk` | elua_mizar32a_debug_sample/src/dlmalloc.c:2148-2164 | The small bins hold exactly one chunk more, in circles of equal sizes, and the map says which are not empty |
| `SmallBins.UnlinkSmallChunk` | elua_mizar32a_debug_sample/src/dlmalloc.c:2167-2208 | The small bins hold exactly one chunk less, with the same invariant |
| `SmallBins.ExactBin` | elua_mizar32a_debug_sample/src/dlmalloc.c:3159-3167 | The bin chosen for a fit without a rest is the first one that is not empty |
| `SmallBins.NextSmall` | elua_mizar32a_debug_sample/src/dlmalloc.c:3176-3195 | The bin chosen for a split is the first one that is not empty, and its rest is a chunk |
| `FreeChunkLists.InsertChunk` | elua_mizar32a_debug_sample/src/dlmalloc.c:2367-2369 | A free chunk is in the one bin for its size, and in no other |
| `FreeChunkLists.UnlinkChunk` | elua_mizar32a_debug_sample/src/dlmalloc.c:2371-2373 | A free chunk leaves the one bin that it is in |
| `FatFile.File.Write` | elua_mizar32a_debug_sample/src/fatfs/ff.c:1857-1963 | The file is the old one with the bytes at the position replaced by the first bw of those given, and is longer if need be; bw is less than asked for only when no cluster is free and the chain is full, or 0 when the size would not fit 32 bits; nothing of other files changes |
| `FatFile.File.Read` | elua_mizar32a_debug_sample/src/fatfs/ff.c:1762-1847 | Exactly the bytes from the position on, as many as asked for and as there are; file and volume stay the same |
| `FatFile.File.Seek` | elua_mizar32a_debug_sample/src/fatfs/ff.c:2101-2190 | The position is the target, or the end of the chain when no cluster is free; a file open for writing is extended by exactly what its clusters held before, and what it had is kept; nothing outside of the table changes |
| `FatFile.File.Truncate` | elua_mizar32a_debug_sample/src/fatfs/ff.c:2382-2417 | The file is cut off at the position; exactly the clusters that it does not need any more are free; other files stay |
| `FatFile.File.constructor` | elua_mizar32a_debug_sample/src/fatfs/ff.c:1668-1753 | An open file stands for the bytes of its chain, with the position at its start |
| `FatVolume.Volume.constructor` | elua_mizar32a_debug_sample/src/fatfs/ff.c:1464-1587 | A volume with equal copies of its table, and nothing in the window, satisfies the invariant |
| `FatVolume.BlankVolume` | elua_mizar32a_debug_sample/src/fatfs/ff.c:1464-1587 | For every layout there is a volume that satisfies the invariant: one that is all zeroes, with all clusters free |
| `FatVolume.Volume.MoveWindow` | elua_mizar32a_debug_sample/src/fatfs/ff.c:246-278 | What a reader of the volume sees does not change, whatever the window held; afterwards all copies of the table are equal again |
| `FatVolume.Volume.WriteBack` | elua_mizar32a_debug_sample/src/fatfs/ff.c:256-268 | The disk has the window in its sector, and in the table in all copies, and is otherwise as it was |
| `FatVolume.Volume.GetFat` | elua_mizar32a_debug_sample/src/fatfs/ff.c:325-357 | The entry of the cluster, 1 for numbers out of range, in all three formats, also when a FAT12 entry lies in two sectors |
| `FatVolume.Volume.PutFat` | elua_mizar32a_debug_sample/src/fatfs/ff.c:367-418 | Exactly the entry of the cluster changes, to the value modulo its number of bits; every other entry and every sector outside of the table stay; fails exactly for numbers out of range |
| `FatEntries.PutEntry` | elua_mizar32a_debug_sample/src/fatfs/ff.c:367-418 | On the bytes of the table: the entry that was put is read back, and no other one changes |
| `FatVolume.Volume.CreateChain` | elua_mizar32a_debug_sample/src/fatfs/ff.c:470-518 | Marks exactly one free cluster as the end of a chain, and links it behind the given last one; 0 only when no cluster is free; the next cluster when there is one; the count of free clusters stays right |
| `FatVolume.Volume.RemoveChain` | elua_mizar32a_debug_sample/src/fatfs/ff.c:429-459 | Exactly the entries along the chain are 0; it ends on every table, also one with cycles; the count of free clusters stays right |
| `FatVolume.Volume.GetFree` | elua_mizar32a_debug_sample/src/fatfs/ff.c:2314-2373 | The count that is kept, or the number of free clusters by counting; the scan of raw sectors counts the two reserved entries too, if they are 0 |
| `FatVolume.ZerosAreFree` | elua_mizar32a_debug_sample/src/fatfs/ff.c:2336-2369 | Counting zero entries gives the number of free clusters |
| `FatChains.ChainRemoved` | elua_mizar32a_debug_sample/src/fatfs/ff.c:429-459 | Removing a chain frees exactly its clusters |
| `FatChains.AllocationWithout` | elua_mizar32a_debug_sample/src/fatfs/ff.c:429-459 | Removing one chain leaves a table of exactly the other chains |
| `FatChains.AllocationStretched` | elua_mizar32a_debug_sample/src/fatfs/ff.c:470-518 | Appending a free cluster to a chain leaves a table of disjoint chains, with that chain one longer |
| `FatChains.AllocationCreated` | elua_mizar32a_debug_sample/src/fatfs/ff.c:470-518 | A free cluster becomes a chain of its own |
| `FatChains.AllocationCut` | elua_mizar32a_debug_sample/src/fatfs/ff.c:2397-2412 | Cutting a chain off frees exactly the rest of it |
| `FatContent.OtherFile` | elua_mizar32a_debug_sample/src/fatfs/ff.c:1857-1963 | What is written to the sectors of one file does not change any byte of another one |
| `LongNames.Register` | elua_mizar32a_debug_sample/src/fatfs/ff.c:1002-1015 | The entries hold the pieces of the name, the last one first, filled up behind its terminator |
| `LongNames.FitLfn` | elua_mizar32a_debug_sample/src/fatfs/ff.c:730-755 | One entry holds its piece, for every length, also multiples of 13 |
| `LongNames.PickLfn` | elua_mizar32a_debug_sample/src/fatfs/ff.c:697-725 | A piece is put back where it belongs; fails exactly for the last piece of a name of 29 or 30 units |
| `LongNames.ReadName` | elua_mizar32a_debug_sample/src/fatfs/ff.c:892-939 | The entries of a name are read back as that name exactly when it has at most 28 units and the check sum is that of the short name |
| `LongNames.CmpLfn` | elua_mizar32a_debug_sample/src/fatfs/ff.c:666-692 | A piece matches exactly when it agrees with the name looked for, up to upper case |
| `LongNames.FindName` | elua_mizar32a_debug_sample/src/fatfs/ff.c:831-882 | The name is found exactly when it is the one looked for up to upper case, has at most 29 units, and the check sum is right |
| `Wofs.Wofs.Store` | elua_mizar32a_debug_sample/src/romfs.c:134-302 | Creating, writing and closing a file: its name, in any letter case, stands for exactly the bytes written, and every other file is as it was; all bytes are written exactly if there is room for them |
| `Wofs.Wofs.constructor` | elua_mizar32a_debug_sample/src/romfs.c:524-538 | A formatted flash has no files |
| `Wofs.Wofs.OpenFile` | elua_mizar32a_debug_sample/src/romfs.c:74-132 | Whatever is on the flash: the first record that the search reads and that has the name, or the end marker that it stops at |
| `Wofs.Wofs.Searched` | elua_mizar32a_debug_sample/src/romfs.c:74-132 | A name is found exactly when a file has it, or the file being written; otherwise the search stops at the end of the records |
| `Wofs.Wofs.Open` | elua_mizar32a_debug_sample/src/romfs.c:134-252 | Which error comes for which reason; a new file replaces one of its name; a file opened for reading is the one of the name; other descriptors stay; all but what Safe excludes, the cases below |
| `Wofs.Wofs.OpenUnfinished` | elua_mizar32a_debug_sample/src/romfs.c:110-123 | The file that is being written is found as one of 2^32 - 1 bytes |
| `Wofs.Wofs.OpenWithin` | elua_mizar32a_debug_sample/src/romfs.c:195-231 | A file made without write access while another one is being written has its name written where the data of that one will begin, and the flash is not a sequence of records any more |
| `Wofs.Wofs.Create` | elua_mizar32a_debug_sample/src/romfs.c:205-231 | The name is written behind all records exactly if there is room, to flash that is blank |
| `Wofs.Wofs.OpenAstray` | elua_mizar32a_debug_sample/src/romfs.c:196-223 | When there is a file with the name that is used as one no file has, replacing it deletes it, and the address for the new name is undefined |
| `Wofs.Wofs.Write` | elua_mizar32a_debug_sample/src/romfs.c:277-302 | Bytes are appended to the file that is open for writing; fewer exactly when the room ends; only blank flash is written to |
| `Wofs.Wofs.Read` | elua_mizar32a_debug_sample/src/romfs.c:304-321 | Exactly the bytes from the position on |
| `Wofs.Wofs.Seek` | elua_mizar32a_debug_sample/src/romfs.c:324-350 | The position, if it lies inside of the file; otherwise nothing changes |
| `Wofs.Wofs.Close` | elua_mizar32a_debug_sample/src/romfs.c:254-275 | The file that was open for writing is now one of the files, with all that was written; other files stay |
| `Wofs.Wofs.ReadDir` | elua_mizar32a_debug_sample/src/romfs.c:369-405 | Gives the listing of the files, one entry after the other |
| `WofsLog.ListingIsFiles` | elua_mizar32a_debug_sample/src/romfs.c:369-405 | A name is listed exactly when opening it finds a file, and with the size of that file |
| `WofsLog.ListedOnce` | elua_mizar32a_debug_sample/src/romfs.c:369-405 | No file is listed twice |
| `WofsLog.FilesMarked` | elua_mizar32a_debug_sample/src/romfs.c:198-204 | Marking a record as deleted takes exactly its file out of the files |
| `WofsLog.FilesAdded` | elua_mizar32a_debug_sample/src/romfs.c:254-275 | A new record adds exactly its file |
| `WofsScan.MarkerName` | elua_mizar32a_debug_sample/src/romfs.c:83-89 | With a name on the flash that begins with the end marker, the search for it, and for any other name that no file has, still stops in front of it, so that opening finds nothing; the room behind it is not blank |
| `WofsScan.SearchInData` | elua_mizar32a_debug_sample/src/romfs.c:110-128 | While a file is being written, the search for a name that nothing has stops where its data begins if and only if there is no data, or that begins with the end marker; otherwise it goes on in the data |
| `WofsScan.FoundInData` | elua_mizar32a_debug_sample/src/romfs.c:110-128 | Data that looks like a record is found as a file |
| `InterruptQueue.Interrupts.Hook` | elua_mizar32a_debug_sample/src/elua_int.c:27-57 | Whatever interrupts come, and whatever is enabled and disabled, between its steps: takes exactly the first pending interrupt, and the hook is set afterwards exactly when others are pending |
| `InterruptQueue.Interrupts.Add` | elua_mizar32a_debug_sample/src/elua_int.c:61-88 | An interrupt is accepted exactly when it is known, enabled, a Lua state runs and a slot is free; then it is the last pending one, and the hook is set |
| `InterruptQueue.Interrupts.Next` | elua_mizar32a_debug_sample/src/elua_int.c:32-35 | A hook that is set always finds an interrupt, the one that came first |
| `InterruptQueue.Interrupts.Cleanup` | elua_mizar32a_debug_sample/src/elua_int.c:122-127 | Nothing is pending or enabled, and what was consumed stays |
| `InterruptQueue.Interrupts.SetEnabled` | elua_mizar32a_debug_sample/src/elua_int.c:91-95 | Exactly one source is enabled, if it is known |
| `InterruptQueue.Interrupts.SetDisabled` | elua_mizar32a_debug_sample/src/elua_int.c:98-102 | Exactly one source is disabled |
| `Sermux.Transfer` | elua_mizar32a_debug_sample/src/common_uart.c:92-173 | Whatever is sent on virtual ports arrives in the rings of the same ports on the other side, each byte once and in order, all of it if there is room, and otherwise what a ring keeps; nothing is asked for |
| `Sermux.TransferAgain` | elua_mizar32a_debug_sample/src/common_uart.c:92-155 | A receiver that has lost the service drops a byte, asks, and gets that byte exactly once |
| `Sermux.TransferLost` | elua_mizar32a_debug_sample/src/common_uart.c:92-155 | The first half of that: nothing is delivered, and the service is asked for once |
| `Sermux.RoundTrip` | elua_mizar32a_debug_sample/src/common_uart.c:92-155 | Decoding what is encoded gives back the same bytes for the same services; the character that asks for the service is never sent |
| `Sermux.LockStep` | elua_mizar32a_debug_sample/src/common_uart.c:92-155 | The same exchange on the states of sender and receiver |
| `Sermux.Mux.Send` | elua_mizar32a_debug_sample/src/common_uart.c:134-155 | What goes over the wire for one byte |
| `Sermux.Mux.RxInterrupt` | elua_mizar32a_debug_sample/src/common_uart.c:160-173 | Each ring gets exactly the bytes of its service, and holds what a ring keeps of them; the service is asked for once for every byte that has none |
| `CharBuffers.CharBuffer.Write` | elua_mizar32a_debug_sample/src/buf.c:126-146 | The ring holds what it keeps of its bytes and the new one: all, if there is room; in a full ring the new byte is the last and also the first one; then nothing is taken any more |
| `CharBuffers.KeptMore` | elua_mizar32a_debug_sample/src/buf.c:126-146 | What a ring keeps of many bytes does not depend on when they come: all, or one more than it has cells, the last of these in place of the first |
| `CharBuffers.CharBuffer.Read` | elua_mizar32a_debug_sample/src/buf.c:184-204 | The first byte leaves the ring; fails exactly when there is none |
| `SimpleAllocator.Allocator.constructor` | elua_mizar32a_debug_sample/src/salloc.c:189-210 | Each region is one free block between two guards |
| `SimpleAllocator.Allocator.Malloc` | elua_mizar32a_debug_sample/src/salloc.c:119-156 | A smallest free block that fits, of the first region that has one, and 0 exactly when none has; less than 16 bytes more than needed are taken; no other block in use is touched; for every size for which the search ends |
| `SimpleAllocator.Allocator.Free` | elua_mizar32a_debug_sample/src/salloc.c:98-163 | Exactly the given block is not in use any more, and free neighbours are one block; no other block in use is touched |
| `SimpleAllocator.Allocator.ShrinkBlock` | elua_mizar32a_debug_sample/src/salloc.c:172-187 | The block has the size needed, unless less than 16 bytes would be left; contents stay |
| `SimpleAllocator.Allocator.Realloc` | elua_mizar32a_debug_sample/src/salloc.c:245-278 | The contents up to the smaller size are found at the new address; fails exactly when the block is too small and no free block fits, and then changes nothing; stays in place when it is large enough; no other block is touched |
| `SimpleAllocator.NeededFits` | elua_mizar32a_debug_sample/src/salloc.c:27-32 | The block is large enough exactly when the size is at most 2^32 - 16 |
| `SimpleAllocator.SearchGoesOn` | elua_mizar32a_debug_sample/src/salloc.c:105-106 | For the eight sizes from 2^32 - 15 on, once a block has been divided, the search for the block before comes back to the same block for ever |
| `SimpleBlocks.MergedRegion` | elua_mizar32a_debug_sample/src/salloc.c:98-115 | Joining a run of free blocks keeps the list gap-free, with no free neighbours |
| `SimpleBlocks.SplitRegion` | elua_mizar32a_debug_sample/src/salloc.c:145-154 | Dividing a block keeps the list gap-free |
| `Eluarpc.RoundTrip` | elua_mizar32a_debug_sample/src/eluarpc.c:220-358 | Reading a packet with the format it was written with succeeds, and gives the same values; pointers point at their data in the packet |
| `Eluarpc.OnlyPackets` | elua_mizar32a_debug_sample/src/eluarpc.c:284-358 | Whatever is in memory: when reading succeeds, what lies there is the packet of some values of that format |
| `Eluarpc.GenWrite` | elua_mizar32a_debug_sample/src/eluarpc.c:220-272 | Exactly the bytes of the packet are written; the data of null pointers is what lies in the packet already |
| `Eluarpc.GenRead` | elua_mizar32a_debug_sample/src/eluarpc.c:284-358 | The loop over the format, with its error flag that stays set, computes what the description of a packet says |
| `Eluarpc.PacketSize` | elua_mizar32a_debug_sample/src/eluarpc.c:202-208 | The size in the packet is its length modulo 2^16; it is right exactly for packets under 64 KiB |
| `Eluarpc.WriteAndRead` | elua_mizar32a_debug_sample/src/eluarpc.c:220-358 | Writer and reader together, on one array |
| `Xmodem.Receive` | elua_mizar32a_debug_sample/src/xmodem.c:137-211 | The buffer is the data of records numbered 1, 2, 3 and so on modulo 256 with right check sums, in the order of their arrival, and each of them was acknowledged once; if the records of a sender arrive, with silence or noise before them as far as the retries allow, and there is memory, they are exactly what is received; if then nothing but what is refused comes, instead of the end, the result is that the retries are exceeded |
| `Xmodem.Line.GetRecord` | elua_mizar32a_debug_sample/src/xmodem.c:83-132 | A record is taken exactly when all of it arrives with the number that is due, its complement and the right check sum; otherwise it is asked for again |
| `Xmodem.SentAgain` | elua_mizar32a_debug_sample/src/xmodem.c:83-132 | The last record, sent again and again with silence behind it, is nothing but what is refused: with Receive, the receiver takes nothing more and gives up |
| `Crc.CheckSum` | elua_mizar32a_debug_sample/src/xmodem.c:109-125 | The loop over a register of 32 bits that is never cut down computes the 16-bit remainder of division by x^16 + x^12 + x^5 + 1, for data of any length |

## Findings

Where the source does not do what it promises, the model does what the source does. Each point names the member that
shows it, and the exact condition.

- WOFS: after a file has been created without write access, closing it does not complete it, and from then on nothing
  can be opened for writing any more (`Wofs.Wofs.Open`: `Stuck`, exactly when the new file has no write access).
- WOFS: a file that is created without write access while another one is being written gets its name written where
  the data of that one belongs (`Wofs.Wofs.OpenWithin`); `Wofs.Wofs.Open` goes well in all other cases that `Safe`
  admits.
- WOFS: the file that is being written can be opened for reading, as one of 2^32 - 1 bytes
  (`Wofs.Wofs.OpenUnfinished`).
- WOFS: while a file is being written, looking for a name that nothing has reads its data as records, unless there is
  none or it begins with byte 0xFF (`WofsScan.SearchInData`, both directions; `WofsScan.FoundInData` is an example).
- WOFS: replacing a file deletes the old one before it is known whether there is room; it is lost exactly when the
  result is `ENOSPC` (`Wofs.Wofs.OpenNew`, `Wofs.Wofs.Store`).
- WOFS: a file whose name begins with byte 0xFF is never found, and hides the end of the records
  (`WofsScan.MarkerName`; `GoodName` is the condition).
- WOFS: the search for the end of the records asks for the name "\1"; when there is such a file and another one is
  replaced, the new name goes to an address that was never set (`Wofs.Wofs.OpenAstray`; `Astray` is the condition).
- FatFs: names of 29 and 30 units can be registered, but not read back; those of 30 units are not found either
  (`LongNames.ReadName`, `LongNames.FindName`, both directions).
- FatFs: seeking behind the end of a file that is open for writing extends it by whatever the clusters held
  (`FatFile.File.Seek`).
- FatFs: the scan of raw sectors counts the reserved entries as free when they are 0 (`FatVolume.Volume.GetFree`).
- Rings: a full ring takes one more byte, over the first one (`CharBuffers.CharBuffer.Write`, for every ring).
- Simple allocator: exactly for sizes above 2^32 - 16 the block that is returned is smaller than what was asked for
  (`SimpleAllocator.NeededFits`); for the lower eight of them `smalloc` does not return when the block is large enough
  to be divided (`SimpleAllocator.SearchGoesOn`; `Returns` is the condition of `Malloc`).
- `elua_sbrk`: a request that is refused leaves nothing for any later one, even if regions had room for less
  (`SystemMemory.RefusedForEver`, `DlMalloc.Malloc.NoMoreMemory`).
- `elua_sbrk`: a request whose end wraps around behind a region is granted (`SystemMemory.Grant` for the condition,
  `SystemMemory.GrantWraps` for an example).
- dlmalloc: when memory is asked for a second time, nothing checks that it follows the first. It need not, with three
  regions (`SystemMemory.SecondElsewhere`; `SystemMemory.SecondFollows` is the exact condition), and always does with
  one or two, as on this board (`DlMalloc.Malloc.SecondIsLast`).
- dlmalloc: when the second request is refused, what was granted first is lost, and no memory can be had any more
  (`DlMalloc.Malloc.MoreCore`: `FirstLost`; `SystemMemory.SecondRefused` is an example).
- dlmalloc: when the second request would be for 2 GiB or more, it is not made, and too little memory is taken for
  enough (`DlMalloc.SecondTooLarge` is an example). `DlMalloc.Malloc.Sound` excludes exactly this, the second grant
  that lies elsewhere, and the one that wraps around; `DlMalloc.Malloc.SoundOnBoard` shows that it holds on boards like
  this one.
- dlmalloc: rounding an alignment ends if and only if that is at most 2^31 (`DlMalloc.RoundingEndsUpTo`).
- ed: in an empty buffer, every node has address 0 (`EdBuffer.Buffer.GetLineNodeAddr`).
- eluarpc: the size in a packet wraps at 64 KiB (`Eluarpc.PacketSize`, both directions), and an empty pointer comes
  back as none at all (`Eluarpc.RoundTrip`).
- XMODEM: when an acknowledgement is lost, the record is sent again and refused for its number, until the retries
  are used up and the transmission fails (`Xmodem.SentAgain` with `Xmodem.Receive`).

## Left out

- SimpleAllocator.Allocator.Realloc: sizes above 2^32 - 16 are not covered, because the source would write beyond
  the block; nor is `scalloc`.
- DlMalloc.Malloc.constructor: the very first request of the allocator, which sets up its state, is not modelled step
  by step; its memory is the front of some region.
- ChunkContents.CopyWords: contents are copied and compared in words; the bytes of a last part of a word, and bit 2 of
  words that could be heads, are not modelled.
- FatVolume.Volume.FindFree: says that a free cluster is found if there is one, not which.
- Wofs.Wofs.ReadDir: only while no file is being written, because the size of that file is not on the flash yet.
- Wofs.Wofs.OpenWithin: the case of another file that has data already, whose first byte is 0xFF, is left out; so
  is what becomes of the flash after that.
- EdBuffer.Buffer.MoveLines: the target does not lie inside of the range; the command parser of ed rejects that.
- EdBuffer.Buffer.AppendLines: input is a list of lines; the global command's list of active lines is not part of
  this model, nor are regular expressions, substitution and file input.
- Eluarpc.GenRead: operation ids that are to be returned, and replacing flags, are not modelled.
- dlmalloc: `calloc`, independent allocation, trimming, mmap, footers, locks, mspaces and statistics.
- FatFs: mounting from a boot sector, directories and short names, formatting, and disk errors.
- ROMFS images that are only read, and the simulators of flash.
- Timing, flow control and the set-up of serial ports; Lua itself, but for the hook being set or not.
- Allocation of line nodes, undo entries and buffers of ed always succeeds; the scratch file is a string.

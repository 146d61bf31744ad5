# hrishikos: page tables, heap, bitmaps, inodes, files and paths

hrishikos is a small x86_64 kernel. This project models its hard state machines in Dafny and proves what they are for.
Each module follows one source file or one idea behind it.

- **Memory.** `Pmm` is the frame allocator: a bitmap of 32-bit words and a wrapping counter. `RadixTree`, `PageTables`
  and `Vmm` are the four-level page tables (section 4.5 of the Intel SDM, Volume 3A) built in frames that the allocator hands
  out. Every reachable table has one label, its level and page-number prefix, so no two entries share a table. The walk
  over stored 64-bit words refines a map from pages to frames, and `vmm_map_page` changes it at one page.
  `VmmInit` counts the tables `vmm_init` needs in closed form and shows that the result translates all of memory.
- **Heap.** `HeapModel` is the buddy heap as a value: a tiling of the heap by aligned blocks. `Heap` is the code, with
  free lists threaded through the blocks themselves, and refines the value call by call.
- **Disk bitmap.** `BitmapModel` counts bits; `DiskBitmap` is the one-block write-back window over the bitmap on disk;
  `FsData` allocates data blocks with it.
- **Inodes and files.** `InodeCache` is the clock cache over the inode table, `Inodes` the direct blocks of an inode,
  `Files` the sequential sessions that write and read through a one-block buffer.
- **Paths and directories.** `PathModel` says what normalising means (`Fold`) and what the code does on every canonical
  cwd and every path (`Track`); `Paths` is the code over character buffers. `Tree` is the directory graph. `Directory`
  packs entries in blocks, and `DirectoryTree` reads the graph off the packed entries. `CreateModel` is what
  `fs_directory_create` does to listed entries, free inode numbers and free blocks, as a value; `FileSystem` is the volume,
  both bitmaps, the blocks and the inodes in their cache, and refines that value call by call. `Dir` and `MakeDir` change and
  make directories on it.
- **Numbers and layout.** `Numbers` prints and parses integers; `Superblock` lays the regions of the file system out, and
  `TableRegion` shows that the inode cache works on the region laid out for it.

Machine words are natural numbers with the C operators defined bit by bit (`Bits`), and wrap-around is written out where
the code relies on it. A method returning `fault` stops where the C code would go on outside its data: past the end of a
string, with a block that was never allocated, or with an inode that does not exist. The contract says exactly
when that happens. Two overruns are no fault, and the model goes on behind them. `dir_change` and `dir_make` declare a buffer
one byte short for an ordinary `cd name` below the root; the model gives itself that byte, and reports exactly when it was
needed (`PathModel.BufferTooShortIff`, the result `short` of `Dir.WorkingDirectory.Change` and `MakeDir.Make`). And where the
code leaves the clock hand of the inode cache one past the last slot, the model takes it back to the first
(`InodeCache.HandOverruns`, the result `written` of `InodeCache.Cache.Evict`).

Where the code does something other than its surroundings expect, the code is modelled as it is:

- The merge guard of `heap_free` compares a block with the user pointer, which is one byte into its block (os/mm/heap.c:169).
  It never fires (`Heap.BuddyGuardFails`), so blocks are never merged (`HeapModel.SplittingIsForGood`).
- `bitmap_disk_set` and `bitmap_disk_unset` look at the loaded block before loading the right one (os/lib/bitmap.c:138, 155).
  Allocation is not affected, since the search leaves the right block loaded; freeing loses a block exactly as
  `FsData.BlockAllocator.FreeBlock` says, and `FsData.LosesBlock` is such a run. One bitmap block, as configured, loses none.
- After a load from disk the counter includes the padding bits (os/lib/bitmap.c:59); `DiskBitmap.Bitmap.Reload` says when it
  is right, and `DiskBitmap.ReloadRefuses` is a run after which no inode is found.
- A created inode enters the cache clean, and `InodeCache.LosesInode` is a run that evicts it unwritten. Inside
  `fs_directory_create` that cannot happen: the first entry makes it dirty before any other inode is looked up
  (`FileSystem.Volume.Add`).
- One branch of the clock does not wrap its hand (os/fs/fs_inode.c:89-95). `InodeCache.HandOverruns` says exactly when it
  leaves the slots, `InodeCache.OverrunsHand` is a run of lookups up to that.
- A failed `fs_inode_alloc_blocks` keeps the blocks it got and they are lost (os/fs/fs_inode.c:379-382), as
  `Inodes.Icache.AllocBlocks` says; `Inodes.LosesLastBlocks` is such a run.
- 255 stands for "no delimiter" although it is also an index (os/fs/fs_directory.h:9). `PathModel.ParentFoundIff` says when
  this loses a parent path. Normalising computes the fold exactly under the condition of `PathModel.TrackIsFoldIff`, and leaves its
  strings exactly under that of `PathModel.FaultIffOverruns`; `PathModel.SentinelLosesParent` and `PathModel.SentinelForgiven`
  are inputs on either side.
- A path that ends with ".." at the root is read past its end (os/fs/fs_directory.c:295-303): `PathModel.ParentAtRootOverruns`.
- The resolver stops at an empty inner segment and the normaliser passes over it (os/fs/fs_directory.c:438-441): `Tree.RightTextIff`,
  `Dir.RightIffAgrees`,
  `Dir.InnerEmptySeparates`, `Dir.InnerEmptyAgrees`.
- `fs_directory_create` checks nothing it needs. `CreateModel.CanCreate` says what that is, `CreateModel.FullDiskBreaksTree`
  what becomes of the tree when no block is free, `MakeDir.FillsDisk` is a run up to that point. The forced `dir_make` succeeds exactly
  when `CreateModel.Feasible` holds beforehand.
- The buffers of `dir_change` and `dir_make` are one byte too short for an ordinary `cd name` below the root:
  `PathModel.BufferTooShortIff`.
- Asked to make the root, `dir_make` makes a directory named "/" (`MakeDir.MakingRoot`).
- The parser knows digits up to F only, while the printer goes up to base 36: `Numbers.UllRoundTrip`.
- The layout may end up to two blocks behind the disk; the configured one ends one behind (`Superblock.EndOfLayout`,
  `Superblock.ConfiguredLayout`).

## Model

| member | source | states |
|---|---|---|
| Bits.MaskIsMod | os/mm/vmm.c:205 | masking with 2^n - 1 is the remainder modulo 2^n, and a right shift by n the quotient |
| Bits.SetBitBits | os/mm/pmm.c:17-21 | `word or 1 << n` sets bit n and keeps every other bit, inside the word's width |
| Bits.ClearBitBits | os/mm/pmm.c:23-27 | `word and not (1 << n)` clears bit n and keeps every other bit |
| Bits.TestBitIsBit | os/mm/pmm.c:29-33 | the mask test reads exactly bit n |
| Bits.DropLowestBit | os/lib/bitmap.c:93-96 | `n &= n - 1` removes exactly one set bit, so the loop takes popcount(n) rounds |
| Pmm.MarkFrameMarks | os/mm/pmm.c:17-21 | marking a frame in the 32-bit words marks that frame and no other |
| Pmm.UnmarkFrameUnmarks | os/mm/pmm.c:23-27 | unmarking clears that frame and no other |
| Pmm.UnmarkUndoesMark | os/mm/pmm.c:174-206 | freeing a frame just marked gives the same words back |
| Pmm.MarkShrinksFree | os/mm/pmm.c:174-197 | each marking takes exactly one frame from the set of free frames |
| Pmm.AllocTakesOne | os/mm/pmm.c:174-197 | the supply, the smaller of free frames and counter left in unsigned 32-bit arithmetic, drops by exactly one |
| Pmm.NoneFree | os/mm/pmm.c:35-51 | with every searched frame marked, no frame is free |
| Pmm.CounterStep | os/mm/pmm.c:174-197 | counting one more used block takes one off the wrapped difference unless it is zero |
| Pmm.FrameAllocator.FindFreeBlock | os/mm/pmm.c:35-69 | both searches answer the lowest free frame of the words they look at, and -1 exactly when there is none |
| Pmm.FrameAllocator.AllocBlock | os/mm/pmm.c:174-197 | outside init mode NULL exactly when the counter has reached maxBlocks or frames 1 to 32 * (maxBlocks / 32) - 1 are all marked, in init mode the same with frames 1 to 4095; otherwise the lowest free of them, which alone becomes marked; the supply drops by one |
| Pmm.FrameAllocator.FreeBlock | os/mm/pmm.c:199-206 | exactly that frame is unmarked and the counter decremented modulo 2^32 |
| RadixTree.NoSharedTables | os/mm/vmm.c:201-287 | two entries of reachable tables that lead to the same table are the same entry |
| RadixTree.PagesSplit | os/mm/vmm.c:205-269 | pages with the same level 1 label and index are the same page, so the four index fields identify a page |
| RadixTree.NothingBelowAbsent | os/mm/vmm.c:208-223 | while an entry is absent no table is labelled as lying below it |
| RadixTree.LinkKeepsLabels | os/mm/vmm.c:208-223 | linking a fresh zeroed table at an absent entry keeps all tables distinct and uniquely placed |
| RadixTree.LinkKeepsWalks | os/mm/vmm.c:208-223 | linking a fresh zeroed table changes no walk of any page |
| RadixTree.LeafKeepsLabels | os/mm/vmm.c:274-284 | writing a level 1 entry keeps the shape of the tree |
| RadixTree.LeafWalk | os/mm/vmm.c:274-284 | after a level 1 write every other page walks as before |
| RadixTree.WalkReachesLeaf | os/mm/vmm.c:225-272 | once the page's level 1 table exists, the walk ends at its entry |
| RadixTree.LabelsAbove | os/mm/vmm.c:208-267 | with the level 1 table of a page in use, its tables of all levels are |
| PageTables.AlignedAddressFits | os/mm/vmm.c:75-121 | a page-aligned 52-bit address survives the frame field of an entry |
| PageTables.SetAddressEffect | os/mm/vmm.c:75-121 | setting the address stores exactly its frame field and keeps the present bit and the rest |
| PageTables.LinkEntryEffect | os/mm/vmm.c:218-222 | after set_address and the two add_flag calls the entry is present and leads to the block |
| PageTables.LinkEntryBits | os/mm/vmm.c:218-222 | every bit of a linked entry: 12 to 51 from the address, P and R/W set, all others as before |
| PageTables.AddressIsFrame | os/mm/vmm.c:119-121 | the frame field of any address is the 4 KiB frame it lies in, modulo 2^52 |
| PageTables.StoredBits | os/mm/vmm.c:75-125 | an entry that is a frame plus 3 has no bit set beside those of the frame and bits 0 and 1 |
| PageTables.EntriesStored | os/mm/vmm.c:218-222 | on every entry the code can meet, linking and readdressing both give exactly the frame plus 3 |
| PageTables.EntriesWritable | os/mm/vmm.c:123-125 | whatever other flags an entry has, both ways of storing an address leave it writable |
| PageTables.ShiftsAreIndices | os/mm/vmm.c:205-269 | the four shift-and-mask expressions are the base-512 digits of the page number |
| PageTables.WalkDecodes | os/mm/vmm.c:201-287 | the hardware's walk over stored 64-bit words equals the walk over the decoded tree |
| PageTables.StoreDecodes | os/mm/vmm.c:274-284 | storing a present entry in memory is setting one link of the decoded tree |
| PageTables.ZeroDecodes | os/mm/vmm.c:215-216 | a block set to zero decodes to an empty table |
| Vmm.LinkBlockKeeps | os/mm/vmm.c:208-223 | a frame free in the frame bitmap is in no table; zeroed, linked and marked it joins them, all tables stay distinct and marked, no walk changes |
| Vmm.LinkedEntry | os/mm/vmm.c:213-222 | linking a block is zeroing it and storing its address plus 3 in that one entry |
| Vmm.OnlyFrameAndFlags | os/mm/vmm.c:218-284 | in every table ever built no entry has a bit beside its frame, P and R/W: no large page, no execute-disable |
| Vmm.MappedWritable | os/mm/vmm.c:218-222 | every mapped page is writable on all four levels |
| Vmm.StoreLeafMaps | os/mm/vmm.c:269-284 | the level 1 store makes the page walk to the stored frame and leaves every other page's walk |
| Vmm.FreshRoot | os/mm/vmm.c:342-350 | a zeroed allocated block is a sound PML4 with no table below it |
| Vmm.AddressSpace.AllocateTable | os/mm/vmm.c:208-223 | one allocate-zero-link step: fails exactly when the supply is empty; otherwise memory is the zeroed block and one entry more, which is the block's address plus 3; the block was no table, and no walk changes |
| Vmm.AddressSpace.Descend | os/mm/vmm.c:208-267 | allocate-if-absent takes a block exactly when the label is not in use and fails exactly when it is needed and none is left |
| Vmm.AddressSpace.FindLeafTable | os/mm/vmm.c:205-272 | succeeds exactly when the supply covers the missing tables of the page and takes exactly that many |
| Vmm.AddressSpace.WriteLeaf | os/mm/vmm.c:269-284 | memory changes in one entry, which becomes the frame of the address plus 3 whether it was present or not; the page maps to that frame and no other page changes |
| Vmm.AddressSpace.MapPage | os/mm/vmm.c:201-287 | refinement of the page map: true iff the supply covers the missing tables, then only this page changes and walks to the requested frame; on false no walk changes; tables stay distinct, marked, in place |
| VmmInit.PhysmapPage | os/mm/vmm.c:131-141 | vmm_physical_to_virtual sends the j-th frame to the j-th page vmm_init maps |
| VmmInit.LatestIsHighest | os/mm/vmm.c:354-363 | pages are mapped in increasing order at every level |
| VmmInit.InUseIffShared | os/mm/vmm.c:354-363 | a table the next page needs exists exactly when the page before shares it |
| VmmInit.MissingAt | os/mm/vmm.c:354-363 | how many tables each call of the two loops allocates |
| VmmInit.IdentityCount | os/mm/vmm.c:354-356 | the identity range takes 3 + ceil(j/512) tables after j pages |
| VmmInit.PhysmapCount | os/mm/vmm.c:354-363 | n physmap pages bring the total to 12 + ceil(n/2^18) + ceil(n/512) tables (11 for n = 0) |
| VmmInit.AllTranslate | os/mm/vmm.c:131-141 | once all is mapped, walking vmm_physical_to_virtual(p) gives p for every page and every table |
| VmmInit.NothingElseStep | os/mm/vmm.c:354-363 | each iteration maps its own page at most: pages not visited stay unmapped |
| VmmInit.PhysmapEnds | os/mm/vmm.c:360-363 | the last page mapped is the last that starts below the memory size |
| VmmInit.TableAddresses | os/mm/vmm.c:131-141 | tables below 16 MiB are reached at their own addresses before and after init mode ends |
| VmmInit.NewRoot | os/mm/vmm.c:342-350 | the PML4 is allocated unless no low block is left |
| VmmInit.MapNext | os/mm/vmm.c:354-363 | one iteration of either loop keeps the exact account of tables and the translation of all pages so far |
| VmmInit.MapIdentity | os/mm/vmm.c:354-356 | the first loop maps 4096 pages to themselves |
| VmmInit.MapPhysmap | os/mm/vmm.c:360-363 | the second loop maps the rest of memory at the physmap offset |
| VmmInit.Init | os/mm/vmm.c:333-373 | all mappings succeed iff bitmap and counter leave the needed number of low blocks; then every page below the memory size and every table translates, no other page is mapped, all tables lie below VMM_IDENTITYMAP_END and are at their own addresses in both modes |
| HeapModel.SplitKeepsTiling | os/mm/heap.c:99-106 | splitting a block keeps blocks aligned, disjoint and covering the heap |
| HeapModel.SplitKeepsInv | os/mm/heap.c:99-106 | and keeps each list holding exactly the free blocks of its order, once each |
| HeapModel.SplitDownKeeps | os/mm/heap.c:99-106 | splitting down to any order keeps the invariant and the blocks handed out |
| HeapModel.AllocKeeps | os/mm/heap.c:133-152 | fails exactly when every list at that order or above is empty; otherwise hands out one free block of that order and disturbs no held block |
| HeapModel.AllocHead | os/mm/heap.c:109-114 | from a list of the requested order its head is handed out |
| HeapModel.AllocSplits | os/mm/heap.c:97-152 | otherwise the head of the lowest list above is split: the upper half of the last split is handed out, its lower half heads its list, each list between gains exactly one upper half |
| HeapModel.FirstAllocation | os/mm/heap.c:128-153 | on a fresh heap one byte gets the second 4 KiB; two bytes less than the heap get its start, one less gets NULL |
| HeapModel.FreeKeeps | os/mm/heap.c:155-186 | freeing a held block adds exactly that block and merges nothing |
| HeapModel.OrderFrom | os/mm/heap.c:11-23 | the least order whose block size exceeds size + 1 |
| HeapModel.FirstNonEmpty | os/mm/heap.c:136-142 | the lowest order with a non-empty list |
| HeapModel.InitialInv | os/mm/heap.c:29-54 | the state after heap_init is a sound tiling of one block |
| HeapModel.StepKeeps | os/mm/heap.c:128-186 | every heap_alloc and heap_free of a held pointer keeps the invariant, the other held blocks, and refines the blocks |
| HeapModel.RunKeeps | os/mm/heap.c:29-186 | over every run free and held blocks are aligned, disjoint, exactly tile the heap, and are listed by order |
| HeapModel.HeldBlocksDisjoint | os/mm/heap.c:128-153 | no byte belongs to two outstanding blocks |
| HeapModel.SmallExcludesLargest | os/mm/heap.c:99-106 | beside a smaller block there is no block of the largest order |
| HeapModel.SplittingIsForGood | os/mm/heap.c:164-185 | once the heap was split, no later run makes the largest block available again |
| Heap.ChainRemove | os/mm/heap.c:85-91 | pointing the predecessor past an element removes exactly that element from an acyclic list |
| Heap.BuddyGuardFails | os/mm/heap.c:169 | the merge guard compares with the odd user pointer, so no block of the heap meets it |
| Heap.BuddyHeap.constructor | os/mm/heap.c:29-54 | heap_init puts one block of the largest order over the whole heap |
| Heap.BuddyHeap.AddBlock | os/mm/heap.c:56-64 | the block becomes the head of its intrusive list, all other lists unchanged |
| Heap.BuddyHeap.DelBlock | os/mm/heap.c:66-97 | exactly that block leaves its list, the order of the others kept |
| Heap.BuddyHeap.SplitRound | os/mm/heap.c:100-105 | one round over the intrusive lists is one split of the model |
| Heap.BuddyHeap.SplitBlock | os/mm/heap.c:99-106 | the loop is the model's split down to the target order |
| Heap.BuddyHeap.AllocBlock | os/mm/heap.c:108-126 | NULL for an empty list, otherwise its head, one byte in, with the order in the header |
| Heap.BuddyHeap.FindOrder | os/mm/heap.c:133-146 | the search for the lowest order with a block |
| Heap.BuddyHeap.Allocate | os/mm/heap.c:128-153 | NULL iff size is 0, too large, or no list at its order or above has a block; otherwise the size bytes lie inside one newly held block behind its header |
| Heap.BuddyHeap.SizeToOrder | os/mm/heap.c:11-23 | the loop computes the least order large enough |
| Heap.BuddyHeap.Free | os/mm/heap.c:155-186 | the freed block goes back to its list, blocks stay as they are, no merge happens |
| Heap.BuddyHeap.PutBack | os/mm/heap.c:160-162 | the header gives the block's own order and the block heads that list |
| Heap.BuddyHeap.FindBuddy | os/mm/heap.c:164-185 | the search of a list for a buddy never finds one |
| Heap.BuddyHeap.ClientStore | os/mm/heap.c:122-125 | holders may write behind the header without disturbing the heap |
| BitmapModel.CountFlip | os/lib/bitmap.c:133-148 | setting one clear bit raises the count of set bits by one |
| BitmapModel.CountFull | os/lib/bitmap.c:182-184 | the count reaches n exactly when no bit below n is clear |
| BitmapModel.SetChangesOneBit | os/lib/bitmap.c:144 | the word expression sets exactly the bits at that offset within a block |
| BitmapModel.ClearChangesOneBit | os/lib/bitmap.c:161 | the word expression clears exactly the bits at that offset within a block |
| BitmapModel.ReplaceBlock | os/lib/bitmap.c:142-147 | changing one bit of the bit's own block changes that bit of the bitmap only |
| BitmapModel.PopcountCounts | os/lib/bitmap.c:67-100 | the sum of popcounts over whole blocks is the number of set bits |
| BitmapModel.BitsOfWords | os/lib/bitmap.c:167-179 | bit b of the bitmap is bit b % 64 of word b / 64, the words of all blocks one behind the other |
| BitmapModel.CountAbove | os/lib/bitmap.c:37-42 | padding bits count in full beyond the last bit |
| BitmapModel.ClearBitsExact | os/lib/bitmap.c:190-203 | the clear bits of a range, in increasing order, each once |
| BitmapModel.FreeOrderExact | os/lib/bitmap.c:181-216 | going round from the loaded block every clear bit comes up exactly once, as many as the count leaves |
| BitmapModel.FreeOrderGoesRound | os/lib/bitmap.c:181-216 | the order rises from the start of the loaded block to the end, and then from bit 0 up to that start |
| BitmapModel.PassedMeans | os/lib/bitmap.c:189-213 | all bits between the start of the loaded block and the one found are set, around the end if it lies before |
| BitmapModel.FreeOrderStep | os/lib/bitmap.c:181-216 | the bit found heads that order, and marking it leaves the rest of the order |
| DiskBitmap.WriteBackKeeps | os/lib/bitmap.c:110-123 | writing the loaded block back and loading another leaves the bitmap as a whole |
| DiskBitmap.FreshBlocksBits | os/lib/bitmap.c:28-44 | a fresh bitmap has exactly the padding bits set and counts zero |
| DiskBitmap.AllScanned | os/lib/bitmap.c:189-213 | blocks scanned one by one without a clear bit mean no bit below the total is clear |
| DiskBitmap.PassedFromScanned | os/lib/bitmap.c:189-213 | no clear bit is passed between the block the search starts at and the bit it finds |
| DiskBitmap.PaddedBlock | os/lib/bitmap.c:24-42 | the last block of a fresh bitmap has exactly the bits from the offset on set |
| DiskBitmap.InitDisk | os/lib/bitmap.c:15-45 | the sectors of the bitmap become a fresh bitmap, no other sector changes |
| DiskBitmap.Bitmap.constructor | os/fs/fs_data.c:15-30 | init then load: block 0 loaded, nothing used, the counter right |
| DiskBitmap.Bitmap.LoadBlock | os/lib/bitmap.c:110-123 | the window moves, dirty or not, and the bitmap as a whole stays |
| DiskBitmap.Bitmap.Flush | os/lib/bitmap.c:102-108 | the disk block becomes the loaded one and the bitmap stays |
| DiskBitmap.Bitmap.CheckedLoadBlock | os/lib/bitmap.c:125-131 | the bit's own block is loaded and the bitmap stays |
| DiskBitmap.Bitmap.Test | os/lib/bitmap.c:167-179 | true exactly for a clear bit below the total |
| DiskBitmap.Bitmap.Set | os/lib/bitmap.c:133-148 | exactly when it acts, given the block loaded before: then this bit alone becomes set and the counter grows |
| DiskBitmap.Bitmap.Unset | os/lib/bitmap.c:150-165 | exactly when it acts, given the block loaded before: then this bit alone becomes clear and the counter shrinks |
| DiskBitmap.Bitmap.FindInWord | os/lib/bitmap.c:191-203 | the first clear bit of a word below the total, or none |
| DiskBitmap.Bitmap.FindInBlock | os/lib/bitmap.c:190-204 | the first clear bit of the loaded block below the total, or none |
| DiskBitmap.Bitmap.FindFreeBit | os/lib/bitmap.c:181-216 | FAILURE exactly when the counter has reached the total or no bit below it is clear; otherwise the first clear bit from 4096 times the loaded block's number on, around the end, whose block stays loaded; no sector outside the bitmap changes |
| DiskBitmap.Bitmap.Take | os/fs/fs_data.c:44-54 | search and set: takes the head of the order of clear bits, marks it alone, leaves the rest; fails exactly when no bit is clear; no sector outside the bitmap changes |
| DiskBitmap.Bitmap.ComputeUsedBitsBlock | os/lib/bitmap.c:86-100 | the loaded block's popcount, one loop round per set bit |
| DiskBitmap.Bitmap.ComputeUsedBits | os/lib/bitmap.c:67-84 | the set bits of all blocks, whichever block is loaded or dirty at entry, the bitmap unchanged |
| DiskBitmap.Bitmap.Reload | os/lib/bitmap.c:47-65 | the counter after a load counts the padding too; it is right iff there is none |
| DiskBitmap.ReloadRefuses | os/lib/bitmap.c:47-65 | a run: the configured inode bitmap, made, written and loaded again, refuses although 63 bits are clear |
| FsData.BlockAllocator.constructor | os/fs/fs_data.c:15-30 | the data bitmap starts with every block free |
| FsData.BlockAllocator.CounterBounded | os/fs/fs_data.c:44-58 | the counter never exceeds the number of blocks |
| FsData.BlockAllocator.FullIffCounted | os/lib/bitmap.c:182-184 | no block is free exactly when the counter has reached the total |
| FsData.BlockAllocator.AllocBlock | os/fs/fs_data.c:44-54 | FAILURE iff no block is free; otherwise a block held by no one, marked alone, counted once, next in the order; what is marked stays exactly what is held |
| FsData.BlockAllocator.FreeBlock | os/fs/fs_data.c:56-58 | clears exactly that bit iff the block loaded before has the bit at that offset set; otherwise the block is lost; with one bitmap block, as configured, none is lost |
| FsData.LosesBlock | os/fs/fs_data.c:44-58 | a run: 4097 of 8192 blocks allocated, block 5 freed, and its bit still set |
| InodeCache.StoreAltersOne | os/fs/fs_inode.c:71-79 | writing one record back alters no other inode's record |
| InodeCache.RecordInTable | os/fs/fs_inode.c:230-233 | record n is element n of the table's sectors put one behind the other |
| InodeCache.StoreStaysInside | os/fs/fs_inode.c:71-79 | writing a record back touches no sector outside the ceil(count / perBlock) of the table |
| InodeCache.FlushKeeps | os/fs/fs_inode.c:64-82 | a flush changes no inode as the system sees it |
| InodeCache.DropKeeps | os/fs/fs_inode.c:89-92 | dropping a clean slot keeps every inode iff the slot repeats the table |
| InodeCache.SweepKeeps | os/fs/fs_inode.c:97-104 | clearing reference bits changes no inode |
| InodeCache.Passed | os/fs/fs_inode.c:107-114 | how many valid and referenced slots the hand passes |
| InodeCache.EvictionMeans | os/fs/fs_inode.c:107-127 | an eviction slot by slot, counted modulo 128 from the hand: which is the victim, which lose their reference bit, all others unchanged |
| InodeCache.HandOverruns | os/fs/fs_inode.c:84-127 | as the code writes it the hand runs past the last slot iff that slot is valid and unreferenced and every slot from the hand to it is passed; otherwise it is the slot behind the victim |
| InodeCache.EvictKeeps | os/fs/fs_inode.c:107-127 | eviction keeps every inode iff its victim is dirty, invalid, or repeats the table |
| InodeCache.FillKeeps | os/fs/fs_inode.c:129-141 | filling an invalid slot shows the new inode and no other change |
| InodeCache.SlotUnique | os/fs/fs_inode.c:143-155 | at most one valid slot exists per inode, so the search finds the only one |
| InodeCache.HeldAfterAdd | os/fs/fs_inode.c:129-141 | an eviction and the addition after it cache no other inode anew |
| InodeCache.Cache.constructor | os/fs/fs_inode.c:44-62 | all slots invalid, every inode as in the table |
| InodeCache.Cache.FlushSlot | os/fs/fs_inode.c:64-82 | a dirty slot's inode is stored in its own record, the slot becomes clean, and no sector outside the table changes |
| InodeCache.Cache.ProbeSlot | os/fs/fs_inode.c:84-105 | one probe of the clock in its three branches, with the hand as the code writes it, and taken back to the first slot where that is one past the last |
| InodeCache.Cache.Evict | os/fs/fs_inode.c:107-127 | ends within 128 probes; the victim is the first slot from the hand invalid or unreferenced, else the hand's own; only passed reference bits are cleared, the victim flushed and invalid; the hand as the code writes it |
| InodeCache.Cache.Search | os/fs/fs_inode.c:143-155 | the slot caching the inode, or none |
| InodeCache.Cache.Add | os/fs/fs_inode.c:129-141 | the victim slot gets the inode, exactly; no other inode changes in a coherent cache |
| InodeCache.Cache.Get | os/fs/fs_inode.c:222-238 | the answer is the inode as the system sees it, and the slots, hand and table after it exactly; in a coherent cache no inode changes; no sector outside the table changes |
| InodeCache.Cache.Update | os/fs/fs_inode.c:256-259 | changing an inode through its cache entry changes that inode alone, and marks it dirty |
| InodeCache.Cache.GetAll | os/fs/fs_inode.c:222-238 | over any lookups the cache stays coherent and no inode changes |
| InodeCache.Cache.UpdateThenGet | os/fs/fs_inode.c:222-262 | a changed inode is there again after any other accesses, evicted or not |
| InodeCache.LosesInode | os/fs/fs_inode.c:107-141 | a run: an inode created and then 128 others looked up; it is evicted unwritten and lost |
| InodeCache.OverrunsHand | os/fs/fs_inode.c:84-141 | a run of plain lookups after which the next miss leaves the hand one past the last slot |
| TableRegion.TableIsRegion | os/fs/fs_superblock.c:44-49 | the sectors the cache reads and writes are those of the layout's inode table region, as many as the layout counts |
| TableRegion.TableApart | os/fs/fs_inode.c:230-233 | the sector of any inode is in that region and is the sector of no block of another region |
| TableRegion.ConfiguredTable | os/fs/fs_system.h:5-8 | as configured the table is sectors 605 to 620, with inode 4 in 606 and inode 36 in 614 |
| Inodes.Icache.GetBlock | os/fs/fs_inode.c:264-277 | the direct pointer, or FAILURE past the last block |
| Inodes.Icache.SetBlock | os/fs/fs_inode.c:315-325 | one direct pointer changes and the entry becomes dirty |
| Inodes.BlocksForLeast | os/fs/fs_inode.c:241-242 | the block count of a size is the least number of 512-byte blocks that hold it |
| Inodes.Icache.AllocBlocks | os/fs/fs_inode.c:369-393 | succeeds iff that many blocks are free; the inode keeps its blocks and gains fresh distinct ones no one held; a failure uses up every free block |
| Inodes.Icache.Grow | os/fs/fs_inode.c:240-262 | the size is set and exactly the extra blocks allocated, or the size stays |
| Inodes.LosesLastBlocks | os/fs/fs_inode.c:369-393 | a run: with two blocks free three are asked for, the call fails, both are used up and the inode has neither |
| Inodes.Fetch | os/fs/fs_inode.c:222-238 | the entry a lookup points at is the inode as the system sees it |
| Inodes.PutBack | os/fs/fs_inode.c:256-259 | what was done through the pointer is what any later lookup sees |
| Files.FlushShows | os/lib/file.c:196-199 | writing the buffer to its block makes the disk show what the session saw |
| Files.LoadShows | os/lib/file.c:201-203 | a block just loaded shows what the disk has |
| Files.StoreAppends | os/lib/file.c:246-249 | storing a byte at the cursor appends it to what the session sees |
| Files.ExtendKeepsView | os/lib/file.c:224-231 | allocating more blocks changes nothing a session saw |
| Files.ContentsAreBlocks | os/lib/file.c:193-209 | the bytes of a file are its blocks of 512 put one behind the other, as far as its size goes |
| Files.OthersOfOthers | os/lib/file.c:224-252 | blocks held by other files are not among those a grown file writes |
| Files.File.constructor | os/lib/file.c:117-125 | a session starts at the front, clean, before its first block |
| Files.File.NextBlock | os/lib/file.c:196-204 | at a boundary the dirty block reaches the disk and the next one is loaded |
| Files.File.WriteByte | os/lib/file.c:233-252 | one more byte at the end of what the session sees; other blocks untouched |
| Files.File.WriteBytes | os/lib/file.c:233-252 | the loop appends exactly the bytes, in order |
| Files.File.WriteAllocated | os/lib/file.c:233-254 | with the blocks there, the bytes are appended and the size grows by as many, nothing else of the inode changes |
| Files.File.Write | os/lib/file.c:214-257 | the file grows by exactly these bytes; block_count covers the size; blocks of others unchanged |
| Files.File.Close | os/lib/file.c:128-135 | the last dirty block reaches the disk, which then shows the whole file |
| Files.File.ReadByte | os/lib/file.c:193-209 | the byte at the cursor |
| Files.File.Read | os/lib/file.c:175-212 | the next bytes of the file, clipped at its size, disk unchanged |
| Files.WriteChunks | os/lib/file.c:128-257 | any writes to an empty file, then close: the disk holds their concatenation |
| Files.ReadPieces | os/lib/file.c:175-212 | reads of any sizes return the file's bytes in order |
| Files.WriteThenRead | os/lib/file.c:128-257 | any writes, close, reopen, any reads: the concatenation of the written bytes |
| Files.WriteThrough | os/lib/file.c:214-257 | open, writes and close, each write looking the inode up again, with any lookups between: the disk holds the concatenation, and the cache shows the grown inode |
| Files.ReadThrough | os/lib/file.c:175-212 | reads of any sizes, each looking the inode up again, with any lookups between, give the file's bytes in order |
| Files.WriteEvictRead | os/lib/file.c:128-257 | write, close, open and read through the cache, with any lookups between any two calls, so that the inode may be evicted each time: bytes complete and in order |
| PathModel.TrackIsFold | os/fs/fs_directory.c:290-337 | the code's step-by-step place is the fold of the segments, and it overruns the path exactly for a final ".." met at the root |
| PathModel.FaultIffOverruns | os/fs/fs_directory.c:290-337 | on all inputs the code leaves its strings iff the segments overrun: a final ".." at the root, or a ".." right after one up to 255 characters, names behind such a one counting from the root |
| PathModel.TrackIsSuffix | os/fs/fs_directory.c:290-337 | on all inputs the names the code ends with are the last names of the fold: only leading ones are ever lost |
| PathModel.TrackIsFoldIff | os/fs/fs_directory.c:290-337 | on all inputs the code computes the fold iff it does not overrun and, from the start or from a moment at which the fold is the root, no ".." leads up to 255 characters |
| PathModel.FoldCanonical | os/fs/fs_directory.c:262-338 | the result is canonical |
| PathModel.TextSegments | os/fs/fs_directory.c:290-337 | splitting a canonical text gives its names back |
| PathModel.NormalTwice | os/fs/fs_directory.c:262-338 | normalising a normalised text, from anywhere, is the identity |
| PathModel.TextInjective | os/fs/fs_directory.c:262-338 | different stacks have different texts |
| PathModel.NormalLength | os/lib/dir.c:119 | the result has at most one character more than both inputs together |
| PathModel.ShownLength | os/lib/dir.c:119 | the same bound on every path, the sentinel met or not |
| PathModel.BufferTooShortIff | os/lib/dir.c:119 | what the code writes, and what it should, exceeds the callers' buffer exactly for a non-empty relative path of plain names from a directory other than the root |
| PathModel.OneCharacterShort | os/lib/dir.c:119 | a concrete such path: "b" from "/a" |
| PathModel.ShortPathsSafe | os/fs/fs_directory.h:9 | paths of up to 255 characters together never meet the sentinel |
| PathModel.LastDelimiterOfText | os/fs/fs_directory.c:340-358 | in a canonical path the last delimiter is the one before the last name |
| PathModel.NameAndParent | os/fs/fs_directory.c:340-414 | name and parent of every path with a delimiter before its last name, a closing one or not; at index 255 the whole path is the name and the parent empty |
| PathModel.NameAlone | os/fs/fs_directory.c:340-414 | a path without such a delimiter is all name, and its parent comes out empty |
| PathModel.CutNames | os/fs/fs_directory.c:398-408 | each round of the parent loop removes exactly the last name |
| PathModel.CutsUnsafe | os/fs/fs_directory.c:401-404 | a cut at index 255 ends the rounds with the empty string |
| PathModel.ParentOfCanonical | os/fs/fs_directory.c:394-414 | the k-th parent of n names is exactly the first n - k - 1 names iff no delimiter cut at is at index 255; otherwise the empty string comes out |
| PathModel.ParentFoundIff | os/fs/fs_directory.c:394-414 | the immediate parent comes out iff its text is not 255 characters long; otherwise the empty string does |
| PathModel.ParentAndName | os/fs/fs_directory.c:372-414 | parent and name joined give the path back |
| PathModel.SentinelLosesParent | os/fs/fs_directory.c:306 | from five names of 50 characters and a sixth, all of which a directory can hold, ".." empties the buffer instead |
| PathModel.SentinelForgiven | os/fs/fs_directory.c:306 | from there a name starts over from the root, and with six or more ".." behind it code and fold agree again |
| PathModel.ParentAtRootOverruns | os/fs/fs_directory.c:295-303 | ".." at the root overruns, "../" does not |
| Paths.Length | os/lib/string.c:49-57 | the length of the string a buffer holds |
| Paths.CopyString | os/lib/string.c:6-15 | copies the string and its terminator, everything before it kept |
| Paths.CopyWhole | os/lib/string.c:45-47 | the buffer holds the string |
| Paths.FindLastDelimiter | os/fs/fs_directory.c:340-358 | the last delimiter but one closing the path; 255 for none and for index 255 |
| Paths.ToParentPath | os/fs/fs_directory.c:394-414 | the in-place loop computes the parent text, and reads before the string exactly where that has none |
| Paths.ToName | os/fs/fs_directory.c:372-392 | the name after the last delimiter |
| Paths.ParentAt | os/lib/dir.c:50-53 | the parent text a caller takes from its buffer |
| Paths.NameOf | os/fs/fs_directory.c:46-47 | the name a caller takes from its buffer |
| Paths.PopSegment | os/fs/fs_directory.c:306-311 | ".." below the root, the root flag included |
| Paths.PushSegment | os/fs/fs_directory.c:313-323 | a plain name is appended with a delimiter unless at the root |
| Paths.TakeSegment | os/fs/fs_directory.c:291-330 | the end of a segment takes the buffer to the next tracked place, and leaves the path exactly for a final ".." at the root |
| Paths.Normalize | os/fs/fs_directory.c:262-338 | the buffer shows the tracked place; a fault exactly where the code leaves a string; the root flag it ends with is set exactly when the buffer is "/" |
| Paths.NormalOf | os/lib/dir.c:119-121 | the text a caller takes from its buffer, and whether the buffer the caller declares is one character short for it |
| Tree.RootIsTree | os/fs/fs_directory.c:32-37 | the root directory as created is a tree |
| Tree.StepCommutes | os/fs/fs_directory.c:448-454 | looking one segment up commutes with folding it onto the path |
| Tree.WalkCommutes | os/fs/fs_directory.c:434-468 | walking entries commutes with folding segments, in every tree |
| Tree.OnePath | os/fs/fs_directory.c:39-63 | an inode of a tree has one canonical path |
| Tree.ExactlyOnePath | os/fs/fs_directory.c:39-63 | every directory of a tree is reached from the root by exactly one canonical path |
| Tree.ResolvedLeads | os/fs/fs_directory.c:416-471 | the inode a path resolves to has the folded segments up to the first empty one as its path |
| Tree.RightTextIff | os/lib/dir.c:110-124 | a text is right for the resolved inode iff it is the fold of the segments up to the first empty one |
| Tree.NoInnerEmptyFolds | os/fs/fs_directory.c:438-441 | without an empty inner segment resolver and normaliser use the same segments |
| Tree.MakeKeepsTree | os/fs/fs_directory.c:39-63 | a directory entered in the graph keeps it a tree, all of it reached from the root, is found by its name, and leaves every other lookup |
| Tree.MakeKeepsWalks | os/fs/fs_directory.c:39-63 | every path that resolved still resolves to the same inode |
| Directory.AddThenLookup | os/fs/fs_directory.c:112-203 | adding a name not present makes find return that entry and leaves every other lookup, free places reused or not |
| Directory.CountFits | os/fs/fs_directory.c:120 | the entry count stays within the inode's blocks |
| Directory.CountLimit | os/fs/fs_directory.c:154 | a directory has at most 64 entries, and room for one more iff its size stays within the direct blocks |
| Directory.EntryLayout | os/fs/fs_directory.h:7-21 | a packed entry is 8 + 1 + 1 + 54 bytes, eight to a block of 512 |
| Directory.EntriesAreBlocks | os/fs/fs_directory.c:112-133 | the entries are the inode's blocks put one behind the other, as far as its size goes |
| Directory.LookupIsFirst | os/fs/fs_directory.c:112-146 | finding gives the first entry of that name, and none just when no entry has it |
| Directory.PlaceLeft | os/fs/fs_directory.c:171-202 | there is a place iff an entry is free, or there are fewer than 64 and, with the last block full, a block is free |
| Directory.WhereItGoes | os/fs/fs_directory.c:171-202 | an entry goes to the first free place, or behind the last, taking a block just when the last is full |
| Directory.StoreEntry | os/fs/fs_directory.c:200-202 | read, change and write of a block changes that one entry |
| Directory.FindEntry | os/fs/fs_directory.c:112-146 | the first entry of that name over the packed blocks; stored names fit the buffer they are copied to |
| Directory.FindFree | os/fs/fs_directory.c:171-187 | the first free place |
| Directory.CreateEntry | os/fs/fs_directory.c:80-88 | the entry of that name, or the fault for a name over 53 characters |
| Directory.GrowInode | os/fs/fs_directory.c:189 | growing by one entry leaves all entries, takes a block iff the last is full, and fails iff there is none |
| Directory.PutEntry | os/fs/fs_directory.c:176-184 | the block is written back with that entry changed |
| Directory.AppendEntry | os/fs/fs_directory.c:189-202 | the entry behind the last one, blocks of others untouched |
| Directory.AddEntry | os/fs/fs_directory.c:148-203 | the fault iff every entry is in use and either there are 64 or they fill their blocks and no data block is free; otherwise the entry goes to the first free place or the end, and blocks of others stay |
| DirectoryTree.NamesAreFound | os/fs/fs_directory.c:112-146 | a name is in use exactly when find succeeds |
| DirectoryTree.FindIsLookup | os/fs/fs_directory.c:112-146 | finding on disk is finding in the tree |
| DirectoryTree.AddedAsMap | os/fs/fs_directory.c:148-203 | adding an entry of a new name updates the name map at that name only |
| DirectoryTree.AddedLookup | os/fs/fs_directory.c:112-203 | every non-empty name is found as before, the added one found as added |
| DirectoryTree.DotsAdded | os/fs/fs_directory.c:57-58 | the first two entries of a new directory and the names they give |
| DirectoryTree.CreateEntriesMake | os/fs/fs_directory.c:57-60 | the three entries added are the tree's new directory |
| CreateModel.PathOfText | os/fs/fs_directory.c:416-471 | resolving a canonical text walks its names from the root |
| CreateModel.CreateOnCanonical | os/fs/fs_directory.c:39-63 | creating on a canonical path acts on its parent stack and last name |
| CreateModel.CreateInAnswers | os/fs/fs_directory.c:46-62 | entry by entry: 253 and no change iff the name is there; the fault iff it is not and an inode, a block, a place or room for the name is missing; otherwise 1 |
| CreateModel.PlacedInParent | os/fs/fs_directory.c:171-202 | the new entry is at the first free place of the parent, or at the end if none is free, which takes a block when the last is full |
| CreateModel.AfterCreateMeans | os/fs/fs_directory.c:55-60 | a new directory has exactly its two dots, its entry is at the first free place of the parent or the end, all other directories stay, and one block or two are gone |
| CreateModel.FreeUnused | os/fs/fs_directory.c:55 | a free inode number is the inode of nothing in the tree |
| CreateModel.AddSound | os/fs/fs_directory.c:148-203 | adding an entry keeps free numbers unnamed and free places without names |
| CreateModel.CreateSound | os/fs/fs_directory.c:39-63 | so does creating a directory |
| CreateModel.CreateKeeps | os/fs/fs_directory.c:39-63 | where a new directory has all it needs the graph stays a tree, keeps its paths, and has it under its name |
| CreateModel.KeptWalks | os/fs/fs_directory.c:39-63 | directories left as they are keep every path through them |
| CreateModel.FullDiskBreaksTree | os/fs/fs_directory.c:57-62 | with no block free the call is the fault, and the graph the code leaves is no tree |
| CreateModel.MissingMade | os/lib/dir.c:52-60 | names none of which exists are made iff inodes, blocks, places and name lengths suffice beforehand and no parent to come is numbered 255 |
| CreateModel.MissingAfter | os/lib/dir.c:52-60 | what that takes: a block for each name, and a change in one existing directory only |
| CreateModel.FeasibleStep | os/lib/dir.c:52-60 | feasibility below an inode is feasibility below the next one, or covering the rest |
| CreateModel.MadeIffFeasible | os/lib/dir.c:41-61 | making a path and its ancestors succeeds iff it is feasible from the contents beforehand |
| CreateModel.MakeDownKeeps | os/lib/dir.c:41-61 | when all is made the graph is a tree, keeps its paths, and the path resolves; a refusal keeps the tree |
| FileSystem.SameEntries | os/fs/fs_directory.c:112-146 | a directory none of whose blocks changed lists the same |
| FileSystem.OneChanged | os/fs/fs_directory.c:148-203 | changing one directory in its own and fresh blocks changes the listing there only |
| FileSystem.OneMade | os/fs/fs_inode.c:174-195 | a new inode without blocks joins the others and lists nothing |
| FileSystem.RootTaken | os/fs/fs_inode.c:40 | with the root's bit set the free numbers are 1, 2 and so on |
| FileSystem.SetRootBit | os/fs/fs_inode.c:40 | the root's number is used, and the free ones are 1, 2 and so on |
| FileSystem.Volume.constructor | os/fs/fs_inode.c:24-42 | a volume over fresh bitmaps and an empty cache is sound and has no inode |
| FileSystem.Volume.Look | os/fs/fs_inode.c:222-238 | a lookup through the cache finds the inode of the volume, and changes none, also while a created one is still clean |
| FileSystem.Volume.Enter | os/fs/fs_inode.c:174-195 | a created inode enters the cache clean; the cache shows it and every other inode |
| FileSystem.Volume.Keep | os/fs/fs_inode.c:256-259 | a change of an inode through its entry is what the cache shows; a dirty one is safe from eviction, the created one too |
| FileSystem.Volume.MakeRoot | os/fs/fs_inode.c:157-172 | the root inode, empty, its number taken, cached clean |
| FileSystem.Volume.CreateRoot | os/fs/fs_directory.c:32-37 | the root with its two dots, one block taken |
| FileSystem.Volume.FindIn | os/fs/fs_directory.c:112-146 | the entry of that name among those listed for the inode, looked up through the cache |
| FileSystem.Volume.NewDirectory | os/fs/fs_inode.c:174-195 | takes the next free number, or is not there exactly when none is free; the new inode is cached clean, and all others still are what the cache shows |
| FileSystem.Volume.Add | os/fs/fs_directory.c:148-203 | changes the listing of that directory by the entry and the free blocks by what it takes, or nothing with the fault; the first entry of a new directory makes the cache coherent again |
| FileSystem.Volume.MakeDotted | os/fs/fs_directory.c:55-58 | a new inode with its two dots, exactly when an inode and a block are free; otherwise listed directories stay |
| FileSystem.Volume.PathToInode | os/fs/fs_directory.c:416-471 | the character loop over stored entries resolves the segments up to the first empty one |
| FileSystem.Volume.MakeChild | os/fs/fs_directory.c:55-62 | inode, dots and entry on the stored blocks are the model's step; the fault iff an inode, a block, a place or name room is missing; otherwise listed directories stay |
| FileSystem.Volume.CreateDirectory | os/fs/fs_directory.c:39-63 | through the cache and on the stored blocks exactly what the model says, fault included, the cache coherent afterwards; with a fault every directory there was is as it was |
| FileSystem.Volume.CreateThenLook | os/fs/fs_directory.c:39-63 | after a directory is made and any inodes are looked up, every inode is found as it was left, the new ones too |
| FileSystem.NewBitmaps | os/fs/fs_data.c:15-30 | both bitmaps made anew, every bit clear |
| FileSystem.EmptyVolume | os/fs/fs_inode.c:24-62 | both bitmaps and the cache made anew: no inode, every number and block free |
| FileSystem.NewVolume | os/fs/fs_directory.c:21-37 | a volume made anew: root alone, all other numbers and blocks free |
| Dir.NoInnerEmptyAgrees | os/fs/fs_directory.c:438-441 | without an empty inner segment the text agrees with the resolver |
| Dir.RightIffAgrees | os/lib/dir.c:110-124 | of a path that resolves the normalised text leads to the inode iff its fold is that of the segments up to the first empty one |
| Dir.Target | os/lib/dir.c:110-124 | the inode the path resolves to, and the text for it: right iff it is the fold of the segments up to the first empty one, for every path whose text is the fold iff the text agrees |
| Dir.WorkingDirectory.Change | os/lib/dir.c:110-124 | a failed change changes neither; otherwise cwd is the resolved inode, and where the normaliser stays inside its strings cwd_path is right iff that condition on the path holds; the declared buffer is one character short exactly for plain names below the root |
| Dir.GoodPathLeads | os/lib/dir.c:110-124 | on a good path the normalised text leads to the resolved inode |
| Dir.ChangesKeepLeading | os/lib/dir.c:110-124 | over every sequence of good changes in every tree cwd_path resolves to cwd |
| Dir.InnerEmptySeparates | os/fs/fs_directory.c:438-441 | a concrete path with an empty inner segment on which text and inode part |
| Dir.InnerEmptyAgrees | os/fs/fs_directory.c:438-441 | a concrete path with an empty inner segment on which they agree |
| MakeDir.MakingRoot | os/lib/dir.c:60 | asked for the root, a directory named "/" is made in the working directory |
| MakeDir.DelimitersOfText | os/fs/fs_directory.c:360-370 | a canonical path has one delimiter per name |
| MakeDir.PrefixText | os/lib/dir.c:53 | round i asks for exactly the first i names |
| MakeDir.DelimiterCount | os/fs/fs_directory.c:360-370 | the number of delimiters |
| MakeDir.RoundSteps | os/lib/dir.c:52-60 | one call of fs_directory_create is one step of making the names down from the root |
| MakeDir.Round | os/lib/dir.c:52-60 | what one round leaves: going on, done, refused at a parent numbered 255, or broken off |
| MakeDir.MakeAll | os/lib/dir.c:49-60 | succeeds iff feasible beforehand; then all prefixes exist, the graph is a tree, every old path resolves; failure and fault exactly as well, the root asked for included |
| MakeDir.Make | os/lib/dir.c:41-61 | the forced dir_make from a relative or absolute path, success, failure and fault stated from the state before, and when the declared buffer is one character short |
| MakeDir.NestedFeasible | os/lib/dir.c:41-61 | on a fresh volume of eight blocks seven nested directories can be made |
| MakeDir.NestedFills | os/fs/fs_directory.c:57-62 | afterwards making another is the fault, although the root has a place |
| MakeDir.FillsDisk | os/fs/fs_directory.c:39-63 | a run to that state on the stored blocks: a tree, no block free, the root with a place, and making /z the fault |
| Numbers.ParsePrinted | os/lib/stdlib.c:60-197 | parsing printed digits gives the number iff all digits are below 16, and less otherwise |
| Numbers.DigitsValue | os/lib/stdlib.c:60-87 | the digits printed stand for the number, most significant first |
| Numbers.DigitsShown | os/lib/stdlib.c:60-87 | digits below ten are written '0' up, the others 'A' up |
| Numbers.ParseMeans | os/lib/stdlib.c:117-140 | digits in either case, then the end or any other character: both parsers give the value of the digits modulo 2^64 |
| Numbers.WrapMeans | os/lib/stdlib.c:139 | the value kept is the one 64-bit number, signed or not, that differs by a multiple of 2^64 |
| Numbers.SpacesAndSign | os/lib/stdlib.c:94-101 | spaces in front change nothing, and a sign behind them gives the negative number |
| Numbers.BaseByPrefix | os/lib/stdlib.c:149-197 | with base 0 the decimal text, 0x and 0X before the hexadecimal one and 0 before the octal one all give the number back |
| Numbers.SignedByPrefix | os/lib/stdlib.c:89-147 | the same for str_to_ll, with the sign |
| Numbers.UllRoundTrip | os/lib/stdlib.c:60-197 | str_to_ull(ull_to_str(n, b), b) is n iff every base-b digit is below 16; always for b up to 16 |
| Numbers.LlRoundTrip | os/lib/stdlib.c:21-147 | the same for every signed number above the least |
| Numbers.SixteenIsLost | os/lib/stdlib.c:117-131 | from base 17 on sixteen prints as G and parses as zero |
| Numbers.LeadingZeroIff | os/lib/stdlib.c:60-87 | the text starts with 0 exactly for zero |
| Numbers.TextLengths | os/lib/stdlib.c:35 | at most 64 digits and a sign, so the 16-bit index is enough |
| Numbers.Reverse | os/lib/string.c:85-96 | the string is reversed in place |
| Numbers.PutDigits | os/lib/stdlib.c:75-80 | the digits come out least significant first |
| Numbers.UllToStr | os/lib/stdlib.c:60-87 | the buffer holds the number's text and the result is its length; -1 for a base out of range |
| Numbers.LlToStr | os/lib/stdlib.c:21-58 | the same with a sign |
| Numbers.ReadBase | os/lib/stdlib.c:102-115 | with base 0 the base and the text behind the prefix, whose meaning is BaseByPrefix; any other base stays, text included |
| Numbers.ReadDigits | os/lib/stdlib.c:117-140 | digits are accumulated up to the first that is none, in wrapping 64-bit arithmetic |
| Numbers.StrToUll | os/lib/stdlib.c:149-197 | on every text the loop computes ParseUll, whose meaning ParseMeans, SpacesAndSign and BaseByPrefix give |
| Numbers.StrToLl | os/lib/stdlib.c:89-147 | on every text the loop computes ParseLl, whose meaning ParseMeans, SpacesAndSign and SignedByPrefix give |
| Numbers.PrintThenParse | os/lib/stdlib.c:21-147 | printing into a buffer and parsing it back is the identity |
| Superblock.LayoutPlain | os/fs/fs_superblock.c:32-60 | for parameters in range every field is the true sum or rounded-up quotient, with 512-byte sectors and 105-byte inode records; only the last subtraction may wrap |
| Superblock.DivideUpRounds | os/fs/fs_superblock.c:43 | (x + d - 1) / d is the least number of pieces that cover x |
| Superblock.RegionsOrdered | os/fs/fs_superblock.c:42-57 | the five regions follow one another with a block in between |
| Superblock.EndOfLayout | os/fs/fs_superblock.c:51-57 | the layout ends at most two blocks late; it fits iff there is no underflow and the remainder modulo 9 is at least 2 |
| Superblock.BitmapsFit | os/lib/bitmap.c:22 | each bitmap region has at least the blocks bitmap_disk_init uses |
| Superblock.RecordsInTable | os/fs/fs_inode.c:230-233 | every inode number has a whole record of its own inside the table region |
| Superblock.BlocksApart | os/fs/fs_helper.c:12-14 | distinct blocks are disjoint runs of sectors, in order, behind the superblock's own |
| Superblock.SectorsDisjoint | os/fs/fs_helper.c:12-14 | no sector belongs to two regions |
| Superblock.ConfiguredLayout | os/fs/fs_system.h:5-8 | the configured file system ends one block behind its disk |

## Left out

- Hardware: port I/O of the ATA driver, inline assembly, CR3 and TLB, interrupts, boot code. The disk is a map from sector numbers to records, CR3 a root frame.
- `vmm_unmap_page`, `vmm_alloc_page`, `vmm_free_page`: the unmapping looks an entry up at an index that is an entry's value and clears a local copy only (os/mm/vmm.c:324), so nothing is unmapped.
- `pmm_init`, `pmm_init_region`, `pmm_deinit_region`, `pmm_memory_map_find_free_region`: the allocator starts from any bitmap whose bit 0 is set, with all frames below 2^19 so that C ints hold their addresses.
- Vmm.AddressSpace.MapPage: memory is accessed by physical address; that the kernel reaches a table through vmm_physical_to_virtual is what VmmInit.Init proves of the tables vmm_init leaves. The walk does not look at the page-size bit, which no entry ever has (Vmm.OnlyFrameAndFlags).
- VmmInit.Init: where the C code halts for want of a PML4 the model stops.
- Heap.BuddyHeap.AllocBlock: the page mapping of a handed-out block (os/mm/heap.c:116-120) and frame contents are not part of the heap model; only the header byte and the next pointer of a block are.
- Heap.BuddyHeap.FindOrder: the read of heap_free_list[13] when no list has a block (os/mm/heap.c:144) is taken to find an empty list.
- Heap.BuddyHeap.Free: the body of the merge (os/mm/heap.c:174-179) is unreachable and not modelled.
- Heap.BuddyHeap.DelBlock: the index of the block is taken below 256, because the C index has eight bits; the code only deletes at index 0 or 1.
- DiskBitmap.InitDisk: one sector a block and a positive size that is a multiple of 8, as the superblock sets them; with other values the loops write other sectors than the bitmap's.
- FsData.BlockAllocator.FreeBlock: does not return the block when another bitmap block is loaded whose bit at the same offset is clear, because the code does not; only held blocks are freed.
- Each disk region is a map of its own records (bitmap blocks, inode records, data bytes, directory entries); that the regions do not overlap is what Superblock.SectorsDisjoint proves.
- InodeCache.Cache.ProbeSlot: the result `written` is the hand as the code leaves it. Where that is one past the last slot (InodeCache.HandOverruns) the model goes on at the first, since the code's next probe would read slot 128. That takes a table of more than 128 inodes, as any eviction does; the configured one has 64.
- InodeCache.EvictKeeps: an inode added by fs_inode_create enters clean and differs from the table until it is marked dirty, so evicting it before then loses it; the equivalence states exactly that. InodeCache.LosesInode needs a table of more than 128 inodes as well.
- Inodes.Icache.AllocBlocks: direct blocks only; the single, double and triple indirect tables, shrinking and fs_inode_free_blocks are not modelled. The call that frees the FAILURE value (os/fs/fs_inode.c:380) does nothing and is omitted.
- Inodes.Icache: the cache entry behind the pointer fs_inode_get returns is an object of its own; eviction while a caller holds the pointer is not modelled, and no modelled caller looks another inode up meanwhile. Files.WriteEvictRead covers eviction between any two calls.
- Files.File.Write: stops when the allocation fails, where the C code goes on with a block that does not exist; covers writes at the end of the file. Sessions that mix reading and writing, file_seek, and modes are not modelled, nor are the path handling of file_open, file_create and file_delete.
- Paths.Normalize: the buffer must hold both inputs and the result; for which inputs the callers' buffers do not is PathModel.BufferTooShortIff, and Paths.NormalOf, which gives itself one byte more, reports it. cwd_path is canonical, as dir_change keeps it.
- FileSystem.Volume: the map of inodes is what the cache shows, which every method keeps. The two bitmaps, the inode table and the data blocks are on drives of their own, see above. After a fault only the contents are promised, not the cache.
- FileSystem.Volume.FindIn: an inode that is no directory has no entries; the C code would read its data as entries.
- FileSystem.Volume.CreateDirectory: stops where the C code goes on without an inode, a block, a 65th place among the direct blocks or room for the name; CreateModel.FullDiskBreaksTree shows one thing that would become of it. A parent with inode number 255 is taken for none, as the code does.
- Directory.AddEntry: stops when there is no place, which the C code does not check. Names longer than 53 characters end in Directory.CreateEntry. fs_directory_entry_del and dir_remove are not modelled.
- MakeDir.Make: no ancestor's path may be 255 characters long, and the normaliser must stay inside its strings. The unforced dir_make is fs_directory_create itself.
- DirectoryTree.AddedAsMap: free places have empty names, as fs_directory_entry_del leaves them; the map leaves the empty name out, which no resolver asks for.
- Numbers.LlToStr: the least signed number has no negation in C and is excluded; signed overflow while parsing is taken as two's complement.
- Numbers.Reverse: the empty string, on which strrev would run over memory, is excluded; the printers never pass it.
- Superblock.LayoutPlain: parameters for which a sum or product leaves 64 bits are excluded; underflow of the remaining blocks is not, see Superblock.EndOfLayout. Writing, loading and printing the superblock are not modelled.
- strcmp and strncmp, which answer 1 for equal strings, appear as equality of strings.
- vsnprintf, printf, sscanf, the VGA console, the shell, the editor, the keyboard, the ELF loader, and fs_init.

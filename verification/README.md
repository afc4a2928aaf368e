# A verified model of the Chef OS kernel's core data structures

Chef OS is a small x86-64 kernel written in C. This project models the parts of it that other
code has to trust, and proves what they promise:

- **Memory.** The physical page bitmap, the four-level page tables built from its pages, and the
  kernel heap with headers inside the managed bytes. `Bitmap`, `MemMap`, `Pmm`, `Paging`, `Vmm`,
  `VmmCode`, `MemoryRuns`; `BlockList`, `LiveBlocks`, `HeapMemory`, `HeapRuns`, `KernelHeap`.
- **Files.** The in-memory file system under the VFS: path lookup, the directory tree, growing
  file buffers and the descriptor table. `CString`, `Paths`, `DirTree`, `FileTable`, `RamFs`, `Vfs`.
- **Windows.** The tiling geometry, and the windows and surfaces that live in the kernel heap.
  `Layout`, `LayoutBounds`, `Desk`, `DeskRuns`, `DeskTiling`, `Compositor`.
- **Threads.** The round-robin ring, with thread structures in the heap and stacks in physical
  pages. `Ring`, `Sched`.

Most parts come in two layers. A layer of values and functions states what an operation does and
carries the lemmas about single calls and whole runs. A layer of classes and methods (`PageAllocator`,
`VmmCode`, `KernelHeap`, `RamfsEntry`, `Vfs`, `WindowSystem`, `Scheduler`) follows the C code
statement by statement, over arrays of bytes and words and linked objects, and each method's
contract ties the new state to the function of the old one. Machine words are bounded integers;
wrap-around is written out where the code can reach it.

The main results:

- Any sequence of page mappings, page allocations and releases refines a flat map from virtual
  pages to leaf entries. Rights granted by a walk are those of the leaf alone. Table frames form
  a tree, never alias, and are disjoint from free pages and from every live allocation, so what owners write
  to their pages changes no translation and no mapping changes what they wrote.
- In every reachable heap state the headers found in memory encode blocks that tile the heap, are
  aligned, and leave no two neighbours free. No operation changes a byte of somebody else's payload.
  `kmalloc` fails exactly when no room exists, and takes the lowest place otherwise; the block has the bytes
  asked for exactly when rounding the request up does not wrap at 2^64. Freeing undoes
  allocating; freeing everything in any order gives back the initial heap.
- `pmm_init` is exact if and only if the bitmap fills whole pages; a concrete machine shows the miss.
- File offsets never pass the end of the file. Reads and writes in any chunk sizes, interleaved with
  other activity, equal one big read or write. Path lookup equals the fold of directory searches.
- For up to sixteen windows on any 32-bit screen, no unsigned subtraction of the layout wraps if and only if
  the screen meets stated bounds on both sides and the master's share, whose product is taken modulo 2^32,
  is at least 8. Master-stack and grid frames tile the screen under exactly the same condition. A surface is 2 narrower and 29 lower than its window exactly when the
  window is at least 2 by 29, and has bytes for all its pixels when their number fits 32 bits. Over every run,
  failed allocations included, the live heap blocks are exactly those of the windows and those of others;
  there are three for each window as long as no allocation failed. Laying out twice does nothing the
  second time exactly when every placed window has its surface.
- The scheduler's ring holds every thread once; `n` yields visit all `n`; no thread starves.

Where the code and its documents disagree, the model follows the code. docs/ARCHITECTURE.md
speaks of a slab allocator, 2 MB pages and preemptive scheduling; the code has a single first-fit list,
4 KB leaves only and a cooperative `sched_yield`. kernel/include/compositor/layout.h says the master
window takes 60 % of the width; the code uses 62 %.

## Model

| member | source | states |
|---|---|---|
| Bitmap.TestBitIs | kernel/src/mm/pmm.c:19-21 | the bit test of page i reads bit i % 8 of byte i / 8 |
| Bitmap.TestSetBit | kernel/src/mm/pmm.c:11-21 | setting a bit of the byte array with shifts and masks changes the answer of the bit test for that page and no other |
| Bitmap.TestClearBit | kernel/src/mm/pmm.c:15-21 | the same for clearing a bit |
| Bitmap.SetRangeFree | kernel/src/mm/pmm.c:86-88 | setting a range of bits removes exactly those pages from the set of free pages |
| Bitmap.ClearRangeFree | kernel/src/mm/pmm.c:107-115 | clearing a range adds exactly those of its pages that exist |
| Bitmap.ClearUndoesSet | kernel/src/mm/pmm.c:77-115 | setting and then clearing a range that was clear restores every byte |
| MemMap.HighestIs | kernel/src/mm/pmm.c:27-36 | the highest address is the end of some usable entry, or 0, and no usable entry ends above it |
| MemMap.BitmapSizeIs | kernel/src/mm/pmm.c:38-39 | the bitmap has a bit for each page and less than a byte more |
| MemMap.FreedMeans | kernel/src/mm/pmm.c:55-63 | without the cut for the bitmap the loop frees the pages that start in a usable entry |
| MemMap.InitFrees | kernel/src/mm/pmm.c:41-63 | the pages the init loop frees are the intended ones plus, when the bitmap size is no page multiple, the page after the region that hosts the bitmap |
| MemMap.InitFreesMeans | kernel/src/mm/pmm.c:41-63 | the same in bytes: pages that start in a usable entry and outside the bitmap and, when the bitmap size is no page multiple, the page at the end of its host |
| MemMap.InitCounts | kernel/src/mm/pmm.c:53-63 | the counter ends at the number of intended pages, plus one when the bitmap size is no page multiple |
| MemMap.InitMeetsIntent | kernel/src/mm/pmm.c:23-64 | set and counter are as intended if and only if the bitmap size is a page multiple |
| MemMap.InitMissesIntent | kernel/src/mm/pmm.c:41-63 | a 16 MB machine on which the page after the end of memory is freed and counted |
| MemMap.FreedInBitmap | kernel/src/mm/pmm.c:53-63 | every bit the init loop clears lies inside the pages reserved for the bitmap |
| MemMap.InitFree | kernel/src/mm/pmm.c:46-63 | from an all-ones bitmap, the free set below the page count is what the loop freed |
| MemMap.InitFreesReserved | kernel/src/mm/pmm.c:41-63 | a machine on which the page freed by mistake is reserved memory below the page count, so that it can be handed out |
| Pmm.FindHighest | kernel/src/mm/pmm.c:27-36 | the loop finds an address that is 0 or the end of some usable entry, and above which no usable entry ends |
| Pmm.FindHost | kernel/src/mm/pmm.c:41-51 | the first usable entry that can hold the bitmap, if any |
| Pmm.PlaceBitmap | kernel/src/mm/pmm.c:38-51 | the host entry loses the rounded size at its base and the raw size of its length; every page starts as used; later clears stay inside the bitmap |
| Pmm.PageAllocator.Init | kernel/src/mm/pmm.c:23-64 | the page count is that of the highest end of a usable entry; free set, counter and adjusted memory map after init, as written |
| Pmm.InitIsExact | kernel/src/mm/pmm.c:23-64 | after init the counter equals the number of free pages and only intended pages are free, if and only if the bitmap size is a page multiple |
| Pmm.PageAllocator.FreeRegion | kernel/src/mm/pmm.c:58-61 | the inner init loop clears one bit per step and counts its steps |
| Pmm.PageAllocator.Test | kernel/src/mm/pmm.c:19-21 | the bit test refines membership in the free set |
| Pmm.PageAllocator.AllocPage | kernel/src/mm/pmm.c:66-75 | takes the lowest free page and nothing else, or fails with nothing changed when no page is free |
| Pmm.PageAllocator.AllocPages | kernel/src/mm/pmm.c:77-97 | takes the lowest run of the wanted length and marks exactly it, or fails with nothing changed; counter and free set stay in step |
| Pmm.PageAllocator.FindRun | kernel/src/mm/pmm.c:78-95 | the scan with its run counter finds the lowest run, and finds none exactly when there is none |
| Pmm.LowestRunIsLowest | kernel/src/mm/pmm.c:77-97 | the run is free, in range and below every other such run; there is none exactly when no such run exists |
| Pmm.ZeroMeansFailure | kernel/src/mm/pmm.c:71-74 | address 0 signals failure and nothing else, if and only if no run of free pages starts at page 0 |
| Pmm.PageAllocator.FreePage | kernel/src/mm/pmm.c:99-105 | adds one existing page to the free set; a repeated free or a page past the end changes nothing; the counter stays exact |
| Pmm.PageAllocator.FreePages | kernel/src/mm/pmm.c:107-115 | clears the range and bumps the counter by the bits that were set |
| Pmm.FreePagesCounter | kernel/src/mm/pmm.c:107-115 | the unbounded loop keeps the counter exact if and only if it clears no used bit past the last page |
| Pmm.FreeUndoesAlloc | kernel/src/mm/pmm.c:77-115 | freeing what was just allocated restores every byte of the bitmap and the counter |
| Pmm.FreeUndoesAllocAt | kernel/src/mm/pmm.c:77-115 | the same through the address that is returned and passed back |
| Pmm.PageOfAddr | kernel/src/mm/pmm.c:90-108 | a page number survives its way through an address |
| Pmm.PageHolds | kernel/src/mm/pmm.c:100-108 | the page of an address is the one whose 4096 bytes hold it |
| Paging.FlagsAre | kernel/src/mm/vmm.c:23-34 | present, writable and user are bits 0, 1 and 2 of an entry |
| Paging.LeafBits | kernel/src/mm/vmm.c:55 | bit by bit a leaf is the address, the flags and the present bit together |
| Paging.LeafDecodes | kernel/src/mm/vmm.c:55 | a leaf made from a page address and low flags gives both back |
| Paging.TableEntry | kernel/src/mm/vmm.c:23-53 | a new table entry points to its frame, is present and writable, and is a user entry exactly for user pages |
| Paging.AddUser | kernel/src/mm/vmm.c:32-52 | adding the user flag keeps the frame and the other flags |
| Paging.SamePage | kernel/src/mm/vmm.c:18-21 | two addresses share all four table indices exactly when they lie in the same page |
| Vmm.MapFromKeeps | kernel/src/mm/vmm.c:17-57 | a mapping keeps the tree of tables: linked, writable, never aliased, never free; it takes one frame for each missing level |
| Vmm.MapFromUserUp | kernel/src/mm/vmm.c:23-55 | a mapping keeps every user entry reachable through user entries only |
| Vmm.MapFromView | kernel/src/mm/vmm.c:17-57 | the leaf read for the mapped path is the new one and for every other path the old one |
| Vmm.MapFromFrames | kernel/src/mm/vmm.c:28-53 | no frame is lost: free frames and tables together stay the same set |
| Vmm.MapFromLeaves | kernel/src/mm/vmm.c:28-55 | a mapping writes to tables and to frames that were free, and to no other frame |
| Vmm.WalkReadsView | kernel/src/mm/vmm.c:17-57 | the four-level walk grants exactly the rights of the leaf and faults exactly when the leaf is not present |
| VmmCode.Zero | kernel/src/mm/vmm.c:30 | zeroes the 512 words of one frame and no other word |
| VmmCode.NextTable | kernel/src/mm/vmm.c:28-35 | the step repeated on three levels does what the specification's step does, in place |
| VmmCode.MapPage | kernel/src/mm/vmm.c:17-57 | the in-place code over the bitmap allocator computes the specified new state of memory and allocator |
| MemoryRuns.MapChangesOnePage | kernel/src/mm/vmm.c:17-57 | one call changes the translation of exactly one page, gives that page the new leaf and its rights, and takes as many frames as levels were missing, at most three |
| MemoryRuns.RunValid | kernel/src/mm/vmm.c:17-57 | the tree, the rights invariant and the separation of extents hold after every run of mappings, allocations, releases and writes by owners to their pages |
| MemoryRuns.FramesAreOwnedOnce | kernel/src/mm/vmm.c:28-53 | after every run the tables form a tree without aliases; tables, free pages and live extents are disjoint and together are the frames of the start |
| MemoryRuns.RunRefinesFlatMap | kernel/src/mm/vmm.c:17-57 | after any run from a zeroed top table the walk of every address gives the last mapping of its page with that leaf's rights, and a fault when there was none |
| MemoryRuns.StoreKeepsTranslation | kernel/src/mm/vmm.c:17-57 | what the owner of a live extent writes to its pages changes no translation |
| MemoryRuns.StepKeepsWord | kernel/src/mm/vmm.c:28-55 | no mapping, allocation or release, and no write to another word, changes a word of a live extent |
| MemoryRuns.RunKeepsWord | kernel/src/mm/vmm.c:17-57 | from boot on, a word of a live extent that its owner leaves alone keeps its value over every run |
| MemoryRuns.ThreeFramesSuffice | kernel/src/mm/vmm.c:28-47 | three free frames suffice for any page-aligned mapping |
| BlockList.MallocKeeps | kernel/src/mm/heap.c:27-51 | allocation keeps the blocks tiling the heap, aligned and with no two neighbours free |
| BlockList.MallocAddsOne | kernel/src/mm/heap.c:27-51 | a successful allocation makes exactly one block live, at the address returned: at least the rounded size, less than 56 bytes more, exactly the rounded size with a free rest behind it when the free block there was 56 bytes or more too large, and that whole block otherwise |
| BlockList.MallocFailsIff | kernel/src/mm/heap.c:31-50 | allocation fails if and only if nowhere in the heap a header and the rounded size fit beside the live blocks |
| BlockList.MallocIsLowest | kernel/src/mm/heap.c:31-50 | the block handed out lies at the lowest place where the request fits |
| BlockList.MergeKeeps | kernel/src/mm/heap.c:64-73 | the merge pass restores the absence of neighbouring free blocks and keeps tiling, alignment and live blocks |
| BlockList.FreeKeeps | kernel/src/mm/heap.c:59-74 | freeing keeps the invariant and makes exactly one block free |
| BlockList.FreeUndoesMalloc | kernel/src/mm/heap.c:27-74 | freeing what was just allocated restores the block list exactly |
| BlockList.FreeAllRestores | kernel/src/mm/heap.c:59-74 | freeing all live blocks in any order leaves the single block of heap_init |
| BlockList.BytesConserved | kernel/src/mm/heap.c:15-74 | headers and payloads add up to the size of the heap |
| BlockList.RoundAligned | kernel/src/mm/heap.c:28 | the rounded size is a multiple of 8 and, for a 64-bit request, at least the request if and only if the request is at most 2^64 - 8 |
| BlockList.KmallocOwnsIff | kernel/src/mm/heap.c:27-51 | the block a successful request gets has the bytes asked for if and only if the request is at most 2^64 - 8 |
| BlockList.HugeRequest | kernel/src/mm/heap.c:27-51 | a request for 2^64 - 1 bytes that succeeds with a block of no bytes |
| LiveBlocks.MallocLive | kernel/src/mm/heap.c:27-51 | the multiset of live blocks gains the block returned, or stays as it is on failure |
| LiveBlocks.FreeLive | kernel/src/mm/heap.c:59-74 | the multiset of live blocks loses the block freed and no other |
| HeapMemory.MallocMemKeeps | kernel/src/mm/heap.c:27-51 | with headers in the managed bytes, allocation keeps memory and block list in step and writes nothing but headers |
| HeapMemory.FreeMemKeeps | kernel/src/mm/heap.c:59-74 | the same for freeing with its merge pass |
| HeapMemory.PayloadNoHeader | kernel/src/mm/heap.c:5-9 | no byte of a payload belongs to a header |
| HeapMemory.PayloadsDisjoint | kernel/src/mm/heap.c:27-51 | no byte belongs to two payloads |
| HeapMemory.FreshHeapAt | kernel/src/mm/heap.c:15-25 | heap_init writes the header of one free block over the whole region |
| HeapRuns.RunHeapAt | kernel/src/mm/heap.c:15-74 | after every run of allocations, frees and writes by owners, the headers in memory encode a heap in order |
| HeapRuns.RunFromInit | kernel/src/mm/heap.c:15-74 | in particular after every run from heap_init on |
| HeapRuns.RunKeepsPayload | kernel/src/mm/heap.c:27-74 | over any run a live block that its owner leaves alone stays live and keeps every byte |
| HeapRuns.FreeingAllResets | kernel/src/mm/heap.c:15-74 | from any reachable state, freeing all live blocks in any order gives back the initial block list |
| KernelHeaps.KernelHeap.Init | kernel/src/mm/heap.c:15-25 | the heap starts in order, as one free block |
| KernelHeaps.KernelHeap.FindFit | kernel/src/mm/heap.c:29-49 | following the stored pointers finds the first block that fits, with the fields of its header |
| KernelHeaps.KernelHeap.Kmalloc | kernel/src/mm/heap.c:27-51 | the code over bytes does what the block-list and memory specifications say, and returns the payload's address or NULL; the block is cut from a free one as for MallocAddsOne, and has the bytes asked for if and only if rounding did not wrap |
| KernelHeaps.KernelHeap.Kzalloc | kernel/src/mm/heap.c:53-57 | zeroes exactly the bytes asked for |
| KernelHeaps.KernelHeap.MergePass | kernel/src/mm/heap.c:64-73 | the loop over stored pointers computes the specified merge |
| KernelHeaps.KernelHeap.Kfree | kernel/src/mm/heap.c:59-74 | frees the block in front of the address and merges; NULL changes nothing |
| CString.Memcpy | kernel/src/lib/string.c:11-18 | on disjoint ranges the target gets the source and nothing else changes |
| CString.Copy | kernel/src/lib/string.c:11-18 | the same between two buffers |
| CString.Memmove | kernel/src/lib/string.c:20-31 | under every overlap the target gets the old source and nothing else changes |
| CString.Strcmp | kernel/src/lib/string.c:49-54 | compares the two strings in memory; 0 exactly on equal strings |
| CString.CompareIsOrder | kernel/src/lib/string.c:49-54 | the sign of the result is the lexicographic order, stated by first difference |
| CString.Strncpy | kernel/src/lib/string.c:70-75 | writes the source padded with zeroes, and nothing else |
| CString.StrncpyFootprint | kernel/src/lib/string.c:70-75 | writes n bytes if and only if the source has n or more, else n + 1, unlike section 7.24.2.4 of ISO C11 |
| CString.NameStored | kernel/src/fs/ramfs.c:66 | in a zeroed field of n + 1 bytes the first n bytes of the name are left as a string |
| Paths.PiecesMean | kernel/src/fs/vfs.c:22-28 | the pieces of a path hold no slash and, joined by slashes, give the path back |
| Paths.ChunksMean | kernel/src/fs/vfs.c:24 | the chunks of a piece give it back; all but the last have 127 bytes, and the last has at most as many |
| Paths.TokensAreChunks | kernel/src/fs/vfs.c:22-28 | every path is cut at its slashes, and pieces of more than 127 bytes into chunks of 127 |
| Paths.TokensAreComponentsIff | kernel/src/fs/vfs.c:24-28 | the components looked up are those of the path if and only if none is longer than 127 bytes |
| Paths.TokensOfRender | kernel/src/fs/vfs.c:17-37 | a path rendered from components of 1 to 127 bytes, with or without a trailing slash, is cut back into them |
| DirTree.FindIsFirst | kernel/src/fs/ramfs.c:42-50 | the search gives the first child with exactly that name, and nothing exactly when there is none |
| DirTree.StoredIsStrncpy | kernel/src/fs/ramfs.c:66 | the name a node is stored under is what strncpy leaves in its zeroed field |
| DirTree.LookupIsFold | kernel/src/fs/vfs.c:13-38 | on rendered paths lookup is the fold of the directory search over the components |
| DirTree.CreateKeepsPaths | kernel/src/fs/ramfs.c:60-94 | creating a node never changes what an already resolving path, of any form, resolves to |
| DirTree.NewPathResolvesIff | kernel/src/fs/ramfs.c:60-94 | with an unused stored name the new path resolves to the new node if and only if the name comes out of the tokeniser as stored |
| DirTree.NewPathLookupIff | kernel/src/fs/vfs.c:13-38 | looking up the new node's path, with its leading slash, finds it if and only if the name is one of those described in the next row |
| DirTree.TokensOfName | kernel/src/fs/ramfs.c:66 | which names do: those of 1 to 127 bytes without a slash, and such names of 127 bytes with one slash behind |
| FileTable.RunInv | kernel/src/fs/vfs.c:40-87 | in every reachable state no descriptor of a plain file stands past its end |
| FileTable.OthersUntouched | kernel/src/fs/vfs.c:40-87 | an operation changes no other descriptor, and only a write to an open file changes contents, of that file only |
| FileTable.OpenTakesLowest | kernel/src/fs/vfs.c:44-54 | open takes the lowest free descriptor at offset 0, and fails exactly when all are taken |
| FileTable.CloseFrees | kernel/src/fs/vfs.c:57-63 | close frees its own descriptor, and changes no other and no content |
| FileTable.ReopenSucceeds | kernel/src/fs/vfs.c:40-63 | an open after a close succeeds, at a descriptor no higher than the one closed |
| FileTable.ReadAtIs | kernel/src/fs/ramfs.c:15-20 | a read delivers the bytes from the offset on, as many as asked for or as there are |
| FileTable.WriteAtIs | kernel/src/fs/ramfs.c:35-39 | a write puts its bytes at the offset, lengthens the file as far as they reach, and leaves every other byte |
| FileTable.WrittenIsRead | kernel/src/fs/ramfs.c:13-40 | what was written at an offset is read back there |
| FileTable.ChunkedReads | kernel/src/fs/vfs.c:65-75 | reads in any chunk sizes, interleaved with other activity, deliver together the clipped slice of the content |
| FileTable.ChunkedWrites | kernel/src/fs/vfs.c:77-87 | writes in any chunk sizes leave the content that one write of all bytes would leave |
| RamFs.RamfsEntry.Read | kernel/src/fs/ramfs.c:13-21 | byte by byte the caller's buffer holds the content from the offset on, as far as asked for or as there is any, and is otherwise as it was; the count is returned as a signed number |
| RamFs.RamfsEntry.Write | kernel/src/fs/ramfs.c:23-40 | with or without a new buffer, at an offset inside the file or at its end the content becomes old prefix, buffer, old suffix; length and every byte determined; the buffer is replaced exactly when it is too small, by one of the next multiple of 512 bytes |
| RamFs.Signed64Is | kernel/src/fs/ramfs.c:20-39 | the number returned is the signed one that is the count modulo 2^64 |
| RamFs.RamfsEntry.Finddir | kernel/src/fs/ramfs.c:42-50 | the loop that compares with strcmp computes the specified search |
| VfsCode.Vfs.constructor | kernel/src/fs/vfs.c:9-11 | all 64 descriptors start free |
| VfsCode.Vfs.OffsetsStayInside | kernel/src/fs/vfs.c:40-87 | from any state of the table on, no run moves a descriptor of a plain file past the file's end |
| VfsCode.Vfs.Lookup | kernel/src/fs/vfs.c:13-38 | the nested loops terminate on every path and compute the specified lookup |
| VfsCode.Component | kernel/src/fs/vfs.c:23-28 | the inner loop takes one component of at most 127 bytes and the slash behind it |
| VfsCode.Vfs.Open | kernel/src/fs/vfs.c:40-55 | opens what lookup finds at the lowest free descriptor; -1 when nothing is found or none is free |
| VfsCode.Vfs.Close | kernel/src/fs/vfs.c:57-63 | the descriptor has no node afterwards, every other is as it was, and a number out of range changes nothing |
| VfsCode.Vfs.Read | kernel/src/fs/vfs.c:65-75 | byte by byte the buffer holds the file's content from the descriptor's offset on, as far as asked for or as there is any; the count is returned as a signed number, by which the offset moves when it is positive; -1 on a descriptor that cannot be read |
| VfsCode.Vfs.Write | kernel/src/fs/vfs.c:77-87 | writes all bytes at the descriptor's offset and returns their number as a signed number, by which the offset moves when it is positive, so 2^63 bytes and more leave it; -1 with nothing changed on a descriptor that cannot be written |
| VfsCode.Vfs.MountRoot | kernel/src/fs/ramfs.c:52-58 | adds an empty root directory named / |
| VfsCode.Vfs.CreateDir | kernel/src/fs/ramfs.c:60-72 | appends an empty directory under the first 127 bytes of its name, or fails with nothing changed when the parent is no directory or has 32 children |
| VfsCode.Vfs.CreateFile | kernel/src/fs/ramfs.c:74-94 | appends a file with the given content under the first 127 bytes of its name, or fails in the same cases |
| LayoutBounds.NoWrapIffUsable | kernel/src/compositor/layout.c:42-96 | on any 32-bit screen with up to sixteen windows no unsigned subtraction on the way to frames and surfaces wraps, on the words the code computes, if and only if the screen is usable: within bounds on both sides and, for a master window, W(62 * available width) / 100 >= 8 |
| LayoutBounds.TiledIffUsable | kernel/src/compositor/layout.c:56-96 | two to sixteen master-stack or grid frames lie inside the usable area, pairwise disjoint and one gap apart, if and only if the screen is usable |
| LayoutBounds.WideScreenWraps | kernel/src/compositor/layout.c:57 | a screen of 69273767 by 768, within the bounds on both sides, on which the product wraps to 58, the next subtraction wraps, and the master frame is 4294967290 wide |
| LayoutBounds.WiderScreenTiles | kernel/src/compositor/layout.c:57 | a wider screen on which the product overflows and the windows tile all the same |
| Layout.FrameIsIdeal | kernel/src/compositor/layout.c:42-96 | on usable screens the 32-bit arithmetic computes the frames of the integers, given the master's share |
| Layout.MasterWidthIff | kernel/src/compositor/layout.c:57 | the master window gets 62 percent of the available width if and only if 62 times that width fits 32 bits |
| LayoutBounds.FrameMeans | kernel/src/compositor/layout.c:48-96 | on usable screens every frame of every mode in closed form |
| Layout.TilesScreen | kernel/src/compositor/layout.c:56-96 | on usable screens any two frames lie inside the usable area and one gap apart |
| Layout.MasterStackFills | kernel/src/compositor/layout.c:56-79 | on usable screens widths and gap add up to the available width, stack heights and gaps to the available height |
| Layout.NextModeIs | kernel/src/compositor/layout.c:13-15 | the next mode is the one with number (mode + 1) % 4 |
| Desks.PixelBytesIff | kernel/src/compositor/surface.c:16 | the bytes asked for are those of all pixels if and only if width times height fits 32 bits |
| Desks.SurfaceSizeIff | kernel/src/compositor/window.c:43-44 | a surface is 2 narrower and 29 lower than its window if and only if the window is at least 2 by 29 |
| Desks.HugeWindow | kernel/src/compositor/surface.c:16 | a window of 65538 by 65565 asks for no pixel bytes |
| Desks.TinyWindow | kernel/src/compositor/window.c:20-21 | a window of 1 by 1 gets a surface of almost 2^32 by almost 2^32 and 112 pixel bytes |
| Desks.SurfaceCreateLive | kernel/src/compositor/surface.c:8-20 | a new surface has the next id, owns what its allocations made live, blocks less than 64 bytes larger than asked for, has the size asked for and the bytes computed for it, which are those of all its pixels when their number fits 32 bits; a failed one owns nothing and takes no id |
| Desks.SurfaceDestroyLive | kernel/src/compositor/surface.c:22-26 | destroying a surface frees exactly its blocks |
| Desks.ResizeLive | kernel/src/compositor/window.c:38-53 | a resize exchanges the old surface's blocks for the new one's and makes no heap call exactly when the surface has the right size already |
| DeskTiling.ApplyTiles | kernel/src/compositor/layout.c:27-97 | after a layout the visible windows tile the screen if and only if the screen is usable and the positions fit the windows' signed fields |
| DeskTiling.SmallPositions | kernel/src/compositor/layout.c:42-96 | on usable screens of at most 2^31 pixels a side they do |
| DeskTiling.SurfaceFits | kernel/src/compositor/window.c:38-53 | a surface is 2 narrower and 29 lower than its window if and only if the window is at least 2 by 29, and has bytes for all its pixels when their number fits 32 bits |
| DeskTiling.RunSurfaces | kernel/src/compositor/window.c:7-53 | so it is in every reachable state |
| DeskTiling.ApplySurfaces | kernel/src/compositor/layout.c:48-96 | after a layout on a usable screen every placed surface fills the inside of its window, with bytes for all its pixels when their number fits 32 bits |
| DeskRuns.ApplyTwice | kernel/src/compositor/layout.c:48-96 | laying out again changes nothing and makes no heap call, if and only if the first layout left no placed window without a surface |
| DeskRuns.VisibleIs | kernel/src/compositor/layout.c:28-38 | the windows laid out are those on the workspace and not minimized, in list order: all of them, or the first sixteen |
| DeskRuns.LayFromPlaces | kernel/src/compositor/layout.c:48-96 | every visible window ends at its frame |
| DeskRuns.SignedIs | kernel/src/compositor/layout.c:50-51 | a position is stored as the signed number that is the word modulo 2^32 |
| DeskRuns.ApplyLeaves | kernel/src/compositor/layout.c:33-38 | a window that is not among the visible ones keeps every field, in every mode |
| DeskRuns.FloatingLeaves | kernel/src/compositor/layout.c:40-96 | without visible windows, or with any number but one in floating mode, every window keeps position, size and surface and the heap is not called |
| DeskRuns.OpenIs | kernel/src/compositor/window.c:7-25 | a new window heads the list with the geometry asked for, the next id, on workspace 1 and visible |
| DeskRuns.RunNumbered | kernel/src/compositor/window.c:11 | in every reachable state with fewer than 2^32 windows, ids are distinct and count up from the oldest |
| DeskRuns.RunGood | kernel/src/compositor/window.c:7-53 | over every run, failed allocations included, the live heap blocks are those of the windows and those of others, have room for the structures and little more, and every surface has the size and the bytes the code computes modulo 2^32 for its window |
| DeskRuns.OwnedThree | kernel/src/compositor/window.c:7-25 | the windows own at most three blocks each, and exactly three if and only if all have surface and pixels |
| DeskRuns.ThreeBlocksEach | kernel/src/compositor/window.c:7-53 | as long as no allocation failed there is one window per creation, with three live blocks each, no block owned twice |
| Compositor.WindowSystem.constructor | kernel/src/compositor/compositor.c:10-23 | no windows, master-stack mode, over a heap in use by others |
| Compositor.WindowSystem.SurfaceCreate | kernel/src/compositor/surface.c:8-20 | the code over the kernel heap makes the specified surface |
| Compositor.WindowSystem.SurfaceDestroy | kernel/src/compositor/surface.c:22-26 | the code frees pixels and structure as specified |
| Compositor.WindowSystem.SurfaceClear | kernel/src/compositor/surface.c:34-40 | every pixel reads back as the colour, and no byte outside the pixel buffer changes |
| Compositor.WindowSystem.ResizeSurface | kernel/src/compositor/window.c:38-53 | the code replaces a surface of the wrong size as specified |
| Compositor.WindowSystem.WindowCreate | kernel/src/compositor/window.c:7-25 | a fresh window with the specified fields and surface, or NULL |
| Compositor.WindowSystem.Register | kernel/src/compositor/compositor.c:25-31 | puts a window at the head of the linked list |
| Compositor.WindowSystem.CycleMode | kernel/src/compositor/layout.c:13-15 | steps through the four modes in order |
| Compositor.WindowSystem.Collect | kernel/src/compositor/layout.c:28-38 | the walk along `next` collects the specified windows |
| Compositor.WindowSystem.LayFull | kernel/src/compositor/layout.c:48-55 | monocle mode, and a single window in any mode |
| Compositor.WindowSystem.LayMasterStack | kernel/src/compositor/layout.c:56-79 | the master-stack branch computes the specified layout |
| Compositor.WindowSystem.LayStack | kernel/src/compositor/layout.c:67-79 | the loop over the stack with its running y coordinate computes the specified frames |
| Compositor.WindowSystem.LayGrid | kernel/src/compositor/layout.c:80-96 | the grid loop computes the specified layout |
| Compositor.WindowSystem.LayoutApply | kernel/src/compositor/layout.c:27-97 | the whole function computes the specified new desktop, heap included; window objects that are not visible keep every field; without visible windows, or with any number but one in floating mode, no object and no heap byte changes |
| Compositor.WindowSystem.LayVisible | kernel/src/compositor/layout.c:40-97 | the same from the windows collected on |
| Ring.RunInv | kernel/src/proc/sched.c:11-44 | after init and any interleaving of creations and yields the ring holds the ids 1 to n, each once |
| Ring.FullTurn | kernel/src/proc/sched.c:39-44 | with n threads, n yields return to the start and visit each thread exactly once |
| Ring.WaitIsYields | kernel/src/proc/sched.c:39-44 | a thread's wait is the number of yields after which it first runs |
| Ring.CreateDelays | kernel/src/proc/sched.c:32-34 | a creation delays a waiting thread by one turn if the new thread comes before it, and not at all otherwise |
| Ring.Fairness | kernel/src/proc/sched.c:21-44 | over any interleaving a thread runs before the yields outnumber the creations by more than its wait |
| Sched.Scheduler.Init | kernel/src/proc/sched.c:11-19 | a ring of the bootstrap thread alone, with id 1, running, its own successor |
| Sched.Scheduler.ThreadCreate | kernel/src/proc/sched.c:21-37 | the relinking keeps one cycle and inserts behind the head; the structure is a live heap block of at least 72 bytes that no other thread has; the stack is the lowest run of four free pages, shared with no other thread, and the stack pointer lies 16 bytes below its end |
| Sched.NewStructure | kernel/src/proc/sched.c:22 | the block for a structure was not in the list before, and every live block stays |
| Sched.Scheduler.Yield | kernel/src/proc/sched.c:39-44 | the next current thread is the one `next` points to, which is the next of the ring |
| Sched.StackAdded | kernel/src/proc/sched.c:28-30 | a stack from free pages overlaps no stack in use |

## Left out

- MemoryRuns.MapChangesOnePage: asks that a physical address does not carry the user bit itself; page-aligned addresses do not. The code would pass such a bit into the leaf without opening the tables above.
- VmmCode.MapPage: needs as many free frames as levels are missing and 4 KB tables grown from a zeroed top table, because the code checks neither a failed allocation nor a large-page entry.
- VmmCode.NextTable: leaves out the direct-map offset; an address is a physical address. TLB invalidation is a no-op, and bits 52 to 63 of an entry stay in the frame number as they do in the code's mask.
- Pmm.PageAllocator.Init: takes the memory map to be page aligned and free of overlaps, as the boot protocol promises, and some entry to be large enough for the bitmap when any is usable.
- Pmm.PageAllocator.FreePages: needs the range to lie inside the bitmap's bytes, because the code has no bound check.
- KernelHeaps.KernelHeap.Kfree: needs a live block's address or NULL; double frees and stray pointers are misuse.
- KernelHeaps.KernelHeap.Init: takes the heap's size and place as parameters instead of 8192 pages from the page allocator.
- CString.Memcpy: needs ranges that do not overlap.
- RamFs.RamfsEntry.Write: takes kmalloc to succeed, as the code does, and file buffers to be separate arrays, which the heap's payload theorem justifies; offset, size and rounding stay below 2^64. Past the end of the file the bytes in between are left open.
- FileTable.ChunkedReads: is about reads of fewer than 2^63 bytes at a time; VfsCode.Vfs.Read states what larger ones do.
- FileTable.ChunkedWrites: is about writes of fewer than 2^63 bytes at a time; VfsCode.Vfs.Write states what larger ones do.
- VfsCode.Vfs.Open: runs no open or close callbacks, which RamFS nodes do not have.
- VfsCode.Vfs.CreateDir: takes kzalloc to succeed.
- Compositor.WindowSystem.ResizeSurface: the paint callback is taken to draw into the surface only, so geometry and heap blocks stay as they are.
- Compositor.Surface: its fields are constants, as nothing modelled assigns to them after surface_create; position, flags, order and title of surfaces and titles and focus of windows are not modelled.
- LayoutBounds.NoWrapIffUsable: is about at most sixteen windows, as many as the code collects.
- KernelHeaps.KernelHeap.Kzalloc: needs a request above 2^64 - 8 to find no block, because memset would run past the end of the one it gets.
- Sched.Scheduler.ThreadCreate: needs room for the 72-byte structure, because the code does not check kzalloc; a failed stack allocation is kept as written, with the stack pointer just below 16 KB.
- Device nodes of kernel/src/fs/devfs.c, which override only one of read and write.
- window_destroy, which nothing calls and which would leave the window in the list.
- Drawing, fonts, cursor, dock, focus cycling and the order of rendering.
- Port I/O, interrupts, descriptor tables, system calls, the shell and the boot sequence.
- strlen, strncmp, memcmp, strcat and surface_draw_rect, which would only add easy members.

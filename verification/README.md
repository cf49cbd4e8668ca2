# A verified model of the kernel's memory management and of its boot image

This project models, in Dafny 4.11, the parts of an IA-32 hobby kernel where a mistake is hardest
to see, and proves what they are for:

* the **kernel heap**, a boundary-tag allocator whose block headers, footers and free list all live
  in the same raw memory (`IntrusiveList`, `HeapBlocks`, `KernelHeap`, `HeapRuns`);
* the **physical frame allocator** over a packed bitmap, and its set-up from the boot memory map
  (`Bitmaps`, `FrameAllocator`, `FrameInit`);
* **two-level page tables** as a refinement of a plain map from pages to frames, with the shared
  kernel half, table ownership, user areas and kernel stacks on top (`PageTables`, `Paging`,
  `KernelVm`, `VirtualMemory`, `UserAccess`, `AreaRecords`, `KernelStacks`);
* **program loading**, the client that joins the parser, the frames, the areas and the tables
  (`PhysicalBytes`, `Iwbf`, `LoadedPrograms`, `ProcessLoader`, `LoadFailure`), and runs in which
  stacks, spaces, kernel mappings and loading alternate on one machine (`KernelRuns`);
* the **FAT32 image writer and the boot loader's reader**, and that the second takes back what the
  first wrote (`Fat32Layout`, `Fat32Entries`, `Fat32Chains`, `Fat32Writer`, `Fat32Reader`,
  `Fat32RoundTrip`);
* two small exact cores: the **byte ring with wrapping counters** under the kernel log, and
  **integers to text and back** (`RingBuffer`, `Syslog`, `Conv`).

State that the original updates in place is state here: classes with fields, methods with
`modifies`, loops with invariants. Every such method is tied to a specification on plain values,
and the theorems are about those. `dafny verify dfyconfig.toml` checks everything.

## How to read it

Each core has one invariant that every operation keeps, and a method that keeps it over any
sequence of operations.

* Heap: `KernelHeap.HeapInv` says that the blocks tile the heap, that memory holds their tags, that
  no two neighbours are free, and that the circular list in memory holds each free block once.
  `HeapRuns.Client.Run` keeps it over any sequence of requests, together with what clients wrote.
* Paging: `PageTables.Refines` says that walking the tables gives the abstract `view` for every
  space and page, with the bits of the page's own entry; `PageTables.Sound` says who owns every
  table frame. `VirtualMemory.Vmm.Run` keeps both, and the area lists, over any sequence of requests.
  `PageTables.Effective` is what the processor grants, which needs the directory entry as well.
* Area records: `AreaRecords.Listed` makes everything live in the heap the record of one area, a lost
  record, or somebody else's; `AreaRecords.Keeper.Run` keeps it together with the area lists.
* Loading: `LoadedPrograms.Placed` says that a segment is in memory, `LoadedPrograms.Isolated` that
  every user page of every space has a frame of its own, in use and no table;
  `LoadedPrograms.Since` says what a load leaves alone in the whole machine, failed or not.
* Kernel stacks: `KernelStacks.StackPool.Valid` ties the slot bitmap, the kernel's translations and
  the frames in use to one ledger of stack pages, their frames, and what failed allocations left.
* All of the memory management together: `KernelRuns.System.Valid` gives every frame in use exactly
  one purpose and makes the slots in use the stacks handed out; `KernelRuns.System.Run` keeps it over
  any sequence of stack, process, page and loading requests.
* FAT32: `Fat32Writer.Good` says what every step of the two passes keeps; `ImageOf` is a finished
  image, and `Fat32RoundTrip` reads it.

What the main operations leave behind is also stated in the source's own numbers, without the model's
helper functions: the words of page tables and directories (`PageTables.WordExact`,
`PageTables.DirectoryWordExact`), block sizes and tags (`KernelHeap.Cut`, `KernelHeap.TagsExact`), the
addresses of stacks (`KernelStacks.Backs`), a segment's permissions and bytes (`ProcessLoader.Reads`),
and the bytes of entries, tables and files on the disk (`Fat32Entries.Laid`, `Fat32Writer.CopyWord`,
`Fat32RoundTrip.BootKernel`).

Eight promises turn out not to hold of the code for all arguments. Each is stated with the exact
condition under which it does hold:

* `kfree` refuses a live pointer exactly if its block is the last one and has 40 bytes or fewer
  (`KernelHeap.Heap.Kfree`, `HeapBlocks.FreeGuard`, with the run `HeapRuns.RefusedRelease`);
* the user range check accepts, besides the ranges in user space, exactly those that start there and
  end at 2^32, where the end wraps to zero (`VirtualMemory.UserRangeExact`, with
  `VirtualMemory.UserRangeWraps`), and the list of areas survives exactly without those
  (`VirtualMemory.AddVma`);
* a page mapped for the user is accessible to the user exactly if its directory entry was absent
  before the call or had the user bit, because the bit is never added later (`VirtualMemory.Vmm.Map`,
  the same for `VirtualMemory.Vmm.Protect`, with the run `UserAccess.OutOfReach`); it follows for whole
  runs that every user page of every space is accessible if no request left out `VM_USER`
  (`KernelRuns.System.Run`);
* the record of an area that goes away returns to the heap exactly if it does not lie in the last 40
  bytes of it, because the refusal of `kfree` is ignored (`AreaRecords.Keeper.Unmap`, with the run
  `AreaRecords.LostRecord`); at most one record can ever be lost (`AreaRecords.Keeper.Run`);
* a failed load keeps every user page on a frame in use exactly if its mapping had not begun, because
  the frames go back and the pages stay (`LoadedPrograms.UndoneIsolated`, with the condition before
  the call in `ProcessLoader.LoadSegment` and the run `LoadFailure.StrayPage`);
* a stack allocation leaves frames behind exactly if there is a free slot and a free frame, and either
  fewer than four frames are free or the first page of the lowest free slot is mapped, because a failure
  part-way keeps its frames in a slot that counts as free (`KernelStacks.StackPool.Alloc`, with the run
  `KernelStacks.OneFrameLeft`); giving back all stacks restores frames and kernel pages exactly if no
  request of the run came in such a state (`KernelRuns.System.Run`);
* the boot loader loads a chain into one piece exactly if clusters are smaller than 64 KiB or the
  chain has a single cluster, because the pointer advances by the low 16 bits of the cluster size
  (`Fat32Reader.LoadExact`, with the disk of `Fat32Reader.WideLoadFails`);
* the text of a number can be read back within 32 bits exactly if the number is not negative, or is
  written in base 10 and is not the least one (`Conv.RoundTrip`, with the texts of `Conv.OutOfRange`).

Where the documentation and the code differ, the model follows the code. The Microsoft FAT32 File
System Specification 1.03 (section "FAT Directory Structure") wants cluster 0 in the `..` entry of
a directory below the root; the writer puts the root's own cluster number there, and so does
`Fat32Writer.Listing`.

## Model

| member | source | states |
|---|---|---|
| `IntrusiveList.Init` | kernel/include/klib/list.h:45-48 | an initialised list is the ring of its sentinel alone; no other word changes |
| `IntrusiveList.InsertAfter` | kernel/include/klib/list.h:88-95 | a ring with the new node right after the given one; only link words of the ring's nodes change |
| `IntrusiveList.InsertBefore` | kernel/include/klib/list.h:105-112 | a ring with the new node right before the given one, at the end for the sentinel; only link words change |
| `IntrusiveList.Remove` | kernel/include/klib/list.h:122-128 | the ring without the node, whatever its position; only link words change |
| `IntrusiveList.Replace` | kernel/include/klib/list.h:198-208 | the ring with the new node in the old one's place; only link words change |
| `IntrusiveList.InsertAfterRing` | kernel/include/klib/list.h:88-95 | the four stores turn any ring, also of one node, into the longer ring |
| `IntrusiveList.RemoveRing` | kernel/include/klib/list.h:122-128 | the stores take the node out of any ring |
| `IntrusiveList.ReplaceRing` | kernel/include/klib/list.h:198-208 | the stores exchange a node of any ring |
| `IntrusiveList.LinksExact` | kernel/include/klib/list.h:24-48 | the first word of a node is the next node and the second the one before, round the ring |
| `HeapBlocks.CarveTiled` | kernel/mm/kheap.c:136-178 | cutting a free block in two, or taking it whole, leaves blocks that tile the heap exactly |
| `HeapBlocks.CarveCoalesced` | kernel/mm/kheap.c:136-178 | a split or a whole take makes no two free neighbours |
| `HeapBlocks.JoinTiled` | kernel/mm/kheap.c:199-207 | merging two free neighbours keeps the tiling |
| `HeapBlocks.ReleaseTiled` | kernel/mm/kheap.c:228-291 | freeing with merging on both sides keeps the tiling, aligned and of blocks of at least 24 bytes |
| `HeapBlocks.ReleaseCoalesced` | kernel/mm/kheap.c:266-291 | coalescing is maximal: after a release no two neighbouring blocks are both free |
| `HeapBlocks.ReleaseElsewhere` | kernel/mm/kheap.c:209-294 | a release changes no other live block |
| `HeapBlocks.EveryByteInOneBlock` | kernel/mm/kheap.c:41-60 | every byte of the heap lies in exactly one block |
| `HeapBlocks.StretchInOneBlock` | kernel/mm/kheap.c:119-185 | a contiguous free stretch lies inside a single free block, so searching block by block loses nothing |
| `HeapBlocks.BlockIsStretch` | kernel/mm/kheap.c:119-185 | conversely a free block is a free stretch of its size |
| `HeapBlocks.NothingLiveIsInitial` | kernel/mm/kheap.c:266-291 | with nothing live the heap is one free block from start to end |
| `HeapBlocks.PayloadsDisjoint` | kernel/mm/kheap.c:106-186 | payloads of two live blocks share no byte, and none with any header or footer |
| `HeapBlocks.FreeGuard` | kernel/mm/kheap.c:213-215 | the upper bound check lets a block through exactly if it is not a last block of 40 bytes or fewer |
| `KernelHeap.BlockSizeExact` | kernel/mm/kheap.c:111-114 | the rounded 32-bit block size holds the request exactly if the request is at most 0xFFFFFFE8; above that it wraps |
| `KernelHeap.FindFit` | kernel/mm/kheap.c:119-124 | the list walk finds the first listed block that is large enough, and fails exactly if there is none |
| `KernelHeap.StretchIffListed` | kernel/mm/kheap.c:119-185 | a listed block fits exactly if a contiguous free stretch of the size exists anywhere in the heap |
| `KernelHeap.TagsExact` | kernel/mm/kheap.c:41-60 | first and last word of every block are its size, and bit 0 of the second word is set exactly if it is live |
| `KernelHeap.Heap.constructor` | kernel/mm/kheap.c:71-104 | the heap starts as one free block of 1 MiB at the direct-map address of its frames, alone on the free list, with the invariant |
| `KernelHeap.Heap.TakeWhole` | kernel/mm/kheap.c:170-178 | the block leaves the list and becomes live; every live payload keeps its words |
| `KernelHeap.Heap.Split` | kernel/mm/kheap.c:139-168 | the block is cut, the remainder takes its place on the list; every live payload keeps its words |
| `KernelHeap.SplitTags` | kernel/mm/kheap.c:142-165 | the six stores of a split leave header and footer of every block in agreement |
| `KernelHeap.SplitRing` | kernel/mm/kheap.c:142-168 | those stores do not disturb the free list, which shares the memory |
| `KernelHeap.Heap.Kmalloc` | kernel/mm/kheap.c:106-186 | fails exactly for size 0 or if no contiguous free stretch of the size, rounded up to whole words, and 20 bytes exists, and then changes nothing; else the block is the first listed one that is large enough, its payload begins 16 bytes into it, it has at least size + 20 and less than size + 47 bytes, and when it was larger by 24 bytes or more the bytes after it are one free block of exactly the difference, in its place on the list; all other blocks, and all live payloads, are as before |
| `KernelHeap.MergeStep` | kernel/mm/kheap.c:199-207 | a merge keeps tags, tiling and list, and all live payloads |
| `KernelHeap.Heap.Merge` | kernel/mm/kheap.c:199-207 | two adjacent free blocks become one with agreeing header and footer |
| `KernelHeap.Heap.Neighbours` | kernel/mm/kheap.c:243-264 | header and footer reads find exactly the free neighbours, also at both ends of the heap |
| `KernelHeap.Heap.Coalesce` | kernel/mm/kheap.c:279-291 | all four combinations of free neighbours end in the same abstract release, with the list holding each free block once |
| `KernelHeap.Heap.Kfree` | kernel/mm/kheap.c:209-294 | accepts a live pointer exactly unless its block is last and of 40 bytes or fewer; then the block is released and merged and all other live payloads keep their words; a refusal changes nothing; without a free block before it the released block is the first on the list |
| `HeapRuns.HoldingsDisjoint` | kernel/mm/kheap.c:106-186 | in any run two holdings of the client share no byte, and none of them meets a tag |
| `HeapRuns.WriteKeepsHeap` | kernel/mm/kheap.c:41-60 | a client's write inside its payload never breaks the heap |
| `HeapRuns.NothingLive` | kernel/mm/kheap.c:209-294 | with nothing live, blocks and free list are again those of `kheap_init` |
| `HeapRuns.Client.Allocate` | kernel/mm/kheap.c:106-186 | fails exactly for size 0 or without a free stretch of the block size; else a new holding, from the first fitting block, is added to those that exist, all of which keep their contents |
| `HeapRuns.Client.GiveBack` | kernel/mm/kheap.c:209-294 | exactly this holding ends, and it does exactly if the pointer is below the last 24 bytes of the heap; otherwise nothing changes |
| `HeapRuns.OnePlace` | kernel/mm/kheap.c:213-215 | a holding of 20 bytes is refused in one place of the heap only |
| `HeapRuns.Client.Run` | kernel/mm/kheap.c:71-294 | over every sequence of allocations, releases and writes: the invariant holds, every word a client wrote is still there, and once nothing is held the heap is the initial one, in whatever order things were given back |
| `HeapRuns.RefusedRelease` | kernel/mm/kheap.c:213-215 | a run of allocations after which releasing a live pointer is refused |
| `Bitmaps.TestMask` | kernel/klib/bitmap.c:20-23 | and-ing with a one-bit mask tests that bit |
| `Bitmaps.Repacked` | kernel/klib/bitmap.c:11-18 | changing one bit of one word changes that position of the packed map and no other |
| `Bitmaps.Bitmap.Set` | kernel/klib/bitmap.c:11-13 | exactly the given bit is set |
| `Bitmaps.Bitmap.Clear` | kernel/klib/bitmap.c:15-18 | exactly the given bit is cleared |
| `Bitmaps.Bitmap.Test` | kernel/klib/bitmap.c:20-23 | the result is the bit |
| `Bitmaps.Bitmap.FindZero` | kernel/klib/bitmap.c:30-56 | the lowest clear bit among the first `nbits`, and failure exactly if there is none, although the last word may have clear bits beyond |
| `FrameAllocator.BoundsExact` | kernel/mm/pmm.c:262-267 | the frame bounds admit exactly the runs wholly inside `[min, max)` and the machine |
| `FrameAllocator.CountAfterFill` | kernel/mm/pmm.c:285-326 | filling a run changes the number of clear bits by its length |
| `FrameAllocator.FreeUndoesAlloc` | kernel/mm/pmm.c:256-329 | freeing a run that was allocated restores the map |
| `FrameAllocator.FirstRunUnique` | kernel/mm/pmm.c:269-291 | there is at most one lowest run |
| `FrameAllocator.Pmm.FindRun` | kernel/mm/pmm.c:269-291 | the one-pass scan with a counter finds the lowest run of free frames, or shows that there is none |
| `FrameAllocator.Pmm.Alloc` | kernel/mm/pmm.c:256-300 | the lowest run inside the bounds, else under FALLBACK the lowest anywhere; fails exactly if there is none; flips exactly those bits; the free counter equals the number of clear bits; a failure changes nothing |
| `FrameAllocator.Pmm.AllocLowmem` | kernel/include/mm/pmm.h:16-17 | the lowest run below the low-memory limit, and none beyond |
| `FrameAllocator.Pmm.AllocAny` | kernel/include/mm/pmm.h:23-24 | the lowest run anywhere |
| `FrameAllocator.Pmm.Free` | kernel/mm/pmm.c:302-329 | succeeds exactly for an aligned address of a run of frames all in use, and then clears exactly those bits; a refusal changes nothing |
| `FrameInit.MaxAddr` | kernel/mm/pmm.c:145-156 | the end of the highest usable entry |
| `FrameInit.TotalCovers` | kernel/mm/pmm.c:161-162 | the rounded frame count covers every usable entry and no whole frame more |
| `FrameInit.FreeUsable` | kernel/mm/pmm.c:173-190 | a frame is clear exactly if it lies wholly inside a usable entry |
| `FrameInit.ForceReserve` | kernel/mm/pmm.c:131-138 | exactly the frames of the range that exist become reserved |
| `FrameInit.ReserveBytes` | kernel/mm/pmm.c:196-225 | exactly the frames that the byte range touches become reserved |
| `FrameInit.CountClear` | kernel/mm/pmm.c:227-233 | the counter starts as the number of clear bits |
| `FrameInit.BitmapWordsReserved` | kernel/mm/pmm.c:211-225 | every frame that any 32-bit word of the bitmap touches is reserved, although the size is computed in bytes |
| `FrameInit.Init` | kernel/mm/pmm.c:140-233 | on any memory map a frame is free exactly if it lies wholly inside one usable entry and outside the first MiB, the kernel image and the bitmap |
| `PageTables.EntryParts` | kernel/arch/x86/mm.c:61-90 | frame and permission bits of an entry do not disturb each other |
| `PageTables.OrIsAdd` | kernel/arch/x86/mm.c:125-237 | joining an aligned address and flags by bitwise or is their sum |
| `PageTables.StoreSeen` | kernel/arch/x86/mm.c:232-237 | storing one entry changes the translation of exactly that page, in exactly the spaces that share the table |
| `PageTables.StoreRefines` | kernel/arch/x86/mm.c:232-237 | after the store the tables refine the updated map |
| `PageTables.StoreSound` | kernel/arch/x86/mm.c:232-237 | the store keeps table ownership |
| `PageTables.InstallSound` | kernel/arch/x86/mm.c:216-227 | a fresh zeroed table in a vacant slot keeps every table owned once |
| `PageTables.InstallRefines` | kernel/arch/x86/mm.c:216-227 | and changes no translation |
| `PageTables.DirectorySound` | kernel/arch/x86/mm.c:92-107 | a new directory that shares the kernel's tables keeps ownership |
| `PageTables.DirectoryRefines` | kernel/arch/x86/mm.c:172-186 | it translates the kernel half as the kernel does and nothing below it |
| `PageTables.DestroySound` | kernel/arch/x86/mm.c:131-161 | without a space's frames everything else is owned as before |
| `PageTables.TablesDistinct` | kernel/arch/x86/mm.c:92-161 | two present entries lead to the same table only if they are the same slot of one space or of the shared half; no table is a directory, and all are in use |
| `PageTables.KernelHalfShared` | kernel/arch/x86/mm.c:172-186 | every attached space translates every kernel address as the kernel space does, through present entries without the user bit |
| `PageTables.KernelNotForUser` | kernel/arch/x86/mm.c:109-129 | no page of the kernel half is accessible to the user in any space, whatever flags the page itself was mapped with |
| `PageTables.WordExact` | kernel/arch/x86/mm.c:61-70 | in every space and every reachable state the word of a page is exactly frame times 4096 plus 1, 2 if writable and 4 if for the user, and 0 if nothing is mapped |
| `PageTables.DirectoryWordExact` | kernel/arch/x86/mm.c:72-90 | every present directory entry is exactly its table's frame times 4096 plus 3, and 4 if the table was made for the user |
| `Paging.Mmu.EnsureTable` | kernel/arch/x86/mm.c:210-230 | a table exists afterwards unless low memory has no free frame; no translation and no data frame changes; the only frame taken is the new table, which is for the user exactly if the mapping is |
| `Paging.Mmu.Map` | kernel/arch/x86/mm.c:191-243 | on success exactly the pages of the range change, page `k` to frame `phys/4096 + k`; on failure exactly the first `done` pages did, none exactly if the first page was mapped or had neither a table nor a low frame for one; which page stopped it: one already mapped, or one without table while low memory has no free frame; frames are taken for tables only; the word of page `k` is exactly that frame, cut to 20 bits, times 4096 plus 1, 2 if writable and 4 if for the user, and that of every new table its frame times 4096 plus 3, and 4 if for the user |
| `Paging.Mmu.Unmap` | kernel/arch/x86/mm.c:249-284 | exactly the pages of the range lose their mapping; a failure stops at the first page that had none; their words are 0 |
| `Paging.Mmu.Protect` | kernel/arch/x86/mm.c:286-326 | exactly the pages of the range keep their frames and get the new permissions; a failure stops at the first page without mapping; each word keeps its frame and has exactly the bits of the flags |
| `Paging.Mmu.Translate` | kernel/arch/x86/mm.c:335-361 | the frame of the page and the offset in it |
| `Paging.MapNext` | kernel/arch/x86/mm.c:203-240 | a loop step extends the changed range by one page, also across table boundaries |
| `Paging.Mmu.KernelPrepare` | kernel/arch/x86/mm.c:109-129 | all 256 kernel slots get a table of their own, unless low memory runs out |
| `Paging.Mmu.AttachKernel` | kernel/arch/x86/mm.c:172-186 | the kernel half of the directory is copied and the user half stays empty |
| `Paging.Mmu.SpaceInit` | kernel/arch/x86/mm.c:92-107 | a fresh frame becomes a directory that has the kernel half and nothing else; it fails only if low memory has no free frame, and changes nothing |
| `Paging.Mmu.SpaceDestroy` | kernel/arch/x86/mm.c:131-161 | never fails on a live space, frees exactly the directory and the private tables its maps took, and changes no other space |
| `Paging.Mmu.FreeTables` | kernel/arch/x86/mm.c:141-153 | every `pmm_free` in the loop succeeds and frees exactly this space's tables |
| `KernelVm.RangeValidExact` | kernel/mm/kernel_vm.c:17-28 | the wrapping check accepts exactly the ranges inside the kernel half |
| `KernelVm.Map` | kernel/mm/kernel_vm.c:30-35 | an aligned kernel range can be mapped exactly if no page of it is; this never takes a frame; which error comes when |
| `KernelVm.Unmap` | kernel/mm/kernel_vm.c:37-42 | an aligned kernel range can be unmapped exactly if every page of it is mapped; which error comes when |
| `KernelVm.Protect` | kernel/mm/kernel_vm.c:44-49 | an aligned kernel range can be reprotected exactly if every page of it is mapped, and keeps its frames; which error comes when |
| `KernelVm.Translate` | kernel/mm/kernel_vm.c:58-66 | nothing below the split, the kernel's translation above it |
| `KernelVm.Init` | kernel/mm/kernel_vm.c:68-105 | page `k` of the direct map is frame `k`, writable exactly outside code and constants, and never for the user; the rest is empty; it fails only if low memory has no free frame; each of the 0x30000 words is exactly 4096 times `k` plus 3, or plus 1 in the two sections |
| `KernelVm.LayOut` | kernel/mm/kernel_vm.c:83-100 | once the kernel tables exist, none of the mapping and protecting calls can fail |
| `VirtualMemory.UserRangeExact` | kernel/mm/vmm.c:17-34 | the ranges in user space, and exactly those besides that start there and end at 2^32 |
| `VirtualMemory.UserRangeWraps` | kernel/mm/vmm.c:28-33 | such a range, accepted although it leaves user space |
| `VirtualMemory.Find` | kernel/mm/vmm.c:68-85 | the early exit agrees with exhaustive search, and the area found is the only one |
| `VirtualMemory.FindRange` | kernel/mm/vmm.c:46-66 | on all 32-bit arguments: an area around the range, found exactly if the range check accepts it and one exists, the end being computed in 32 bits |
| `VirtualMemory.Place` | kernel/mm/vmm.c:100-123 | the place that keeps the list sorted, and failure exactly on overlap |
| `VirtualMemory.AddVma` | kernel/mm/vmm.c:87-137 | on all 32-bit arguments: which error comes when; on success the list stays sorted, disjoint and in user space exactly if the end of the range does not wrap |
| `VirtualMemory.InsertSorted` | kernel/mm/vmm.c:104-134 | inserting there keeps the list sorted, aligned, in user space and disjoint |
| `VirtualMemory.RemoveUndoesInsert` | kernel/mm/vmm.c:179-184 | removing the area just added restores the list |
| `VirtualMemory.RemoveVma` | kernel/mm/vmm.c:139-149 | removes the one area that contains the address and keeps the list sorted; fails exactly if there is none |
| `VirtualMemory.TakeBack` | kernel/mm/vmm.c:179-184 | after a failed mapping the look-up finds the node just added, and the list is as before |
| `VirtualMemory.OneArea` | kernel/mm/vmm.c:87-137 | a page lies in at most one area |
| `VirtualMemory.UncoveredIsFree` | kernel/mm/vmm.c:168-179 | where no area is, no page is present, so a new area finds its pages free |
| `VirtualMemory.AreaMapped` | kernel/mm/vmm.c:189-253 | every page of an area is present |
| `VirtualMemory.ReachDecided` | kernel/arch/x86/mm.c:216-237 | after mapping or reprotecting, a page of the range is accessible to the user exactly if the flags say so and its directory entry, before the call, was absent or had the user bit |
| `VirtualMemory.TableStays` | kernel/arch/x86/mm.c:210-230 | a table stays in its slot with the user bit it was made with |
| `UserAccess.OutOfReach` | kernel/arch/x86/mm.c:216-230 | a run that ends with a user area whose page the user cannot reach |
| `AreaRecords.Records.Take` | kernel/mm/vmm.c:125-133 | a record can be had exactly if the heap has 40 free bytes in one piece |
| `AreaRecords.Records.Drop` | kernel/mm/vmm.c:145-146 | the record goes back, and is lost exactly if it lies in the last 40 bytes of the heap |
| `AreaRecords.Records.DropAll` | kernel/mm/vmm.c:286-291 | all records of a space, in list order; lost is exactly the one in the last 40 bytes, if it is among them |
| `AreaRecords.Keeper.Map` | kernel/mm/vmm.c:151-187 | a record is taken exactly if the arguments are good, nothing overlaps and the heap has room; it stays exactly with a new area, and otherwise goes back or is lost by its place |
| `AreaRecords.Keeper.Unmap` | kernel/mm/vmm.c:189-220 | the area's record goes with it, and is lost exactly by its place |
| `AreaRecords.Keeper.Close` | kernel/mm/vmm.c:276-299 | all records of the space go with it, at most one of them lost |
| `AreaRecords.Keeper.Run` | kernel/mm/vmm.c:87-299 | over every sequence of requests: live heap blocks are the records of the areas, one each, at most one lost record, and what others hold; with all spaces gone the heap is the initial one exactly if none is lost |
| `AreaRecords.LostRecord` | kernel/mm/vmm.c:139-149 | a heap in which the next record is at the end, so that dropping it loses it |
| `VirtualMemory.Vmm.SpaceInit` | kernel/mm/vmm.c:255-274 | a new space without areas and with the kernel half |
| `VirtualMemory.Vmm.SpaceDestroy` | kernel/mm/vmm.c:276-299 | never fails; frees exactly the space's tables; all other spaces keep areas and translations |
| `VirtualMemory.Vmm.Map` | kernel/mm/vmm.c:151-187 | refused exactly for bad arguments; on success the area and exactly its pages appear; on failure the area list is exactly as before and the first `done` pages stay mapped, some exactly if nothing overlaps, there is an area record, and the first page is free with a table or a low frame for it; overlap is reported, and only overlap in a space where no mapping stopped part-way; memory fails it only without an area record or a free low frame; the user can get at exactly those of the mapped pages whose directory entry was absent before or had the user bit, if the flags say so |
| `VirtualMemory.Vmm.Unmap` | kernel/mm/vmm.c:189-220 | succeeds exactly on a whole area, never stops part-way, and removes the area and exactly its pages; otherwise changes nothing; the range is refused as an argument exactly if it is bad or inside an area without being one, and as not mapped exactly if no area contains it |
| `VirtualMemory.Vmm.Protect` | kernel/mm/vmm.c:222-253 | succeeds exactly on a whole area, never stops part-way, and changes the permissions of the area and of exactly its pages; then the user can get at them exactly if the flags say so and the directory entry has the user bit; otherwise changes nothing; the range is refused as an argument exactly if it is bad or inside an area without being one, and as not mapped exactly if no area contains it |
| `VirtualMemory.Vmm.KernelChange` | kernel/mm/kernel_vm.c:30-49 | exactly the first `done` pages of the kernel range change, in every space at once, to what the operation asks; success means all of them, and comes for an aligned kernel range exactly if they were all free (mapping) or all mapped (the other two); user pages, areas, tables and frames in use are as before |
| `VirtualMemory.Vmm.Serve` | kernel/mm/vmm.c:151-299 | no request touches a frame that holds no table or the kernel's own tables; only kernel requests touch the kernel's space; only mappings make user pages; only mappings without VM_USER make tables closed to the user, and only those and reprotections without it hide pages |
| `VirtualMemory.Vmm.Run` | kernel/mm/vmm.c:151-299 | over every sequence of creations, destructions, user and kernel changes: areas stay sorted and disjoint; every page of every area is present with the area's bits in its own entry, and the processor grants them but for user access under a table not made for the user; in spaces without a part-way failure every present user page lies in an area; tables stay owned once; the kernel half is the same in every space and closed to the user |
| `Iwbf.HeaderRoundTrip` | kernel/format/iwbf.c:5-42 | the header decoder takes back the encoding of any valid header, whatever follows |
| `Iwbf.SegmentRoundTrip` | kernel/format/iwbf.c:44-86 | the segment decoder takes back the encoding of any valid segment |
| `Iwbf.SegmentAccepted` | kernel/format/iwbf.c:44-86 | what it accepts is valid: fields in range, file part within memory part, known flags only |
| `Iwbf.HeaderAccepted` | kernel/format/iwbf.c:5-42 | a header is accepted exactly if it has 16 bytes, the magic IWBF, type 1, architecture 1 and a segment; entry and count are the bytes 8 to 13, lowest first |
| `Iwbf.SegmentFields` | kernel/format/iwbf.c:44-86 | a descriptor is refused exactly if it is short, its file part is larger than its memory part or its flags are not 1 to 7; the five fields are its 20 bytes, lowest first |
| `PhysicalBytes.ByteOrder` | kernel/include/klib/endian.h:1-20 | the four bytes of a word are its value, lowest first |
| `ProcessLoader.CopyIn` | kernel/process/process.c:135-138 | exactly the bytes of the destination change, word memory being written byte by byte |
| `ProcessLoader.FillSegment` | kernel/process/process.c:135-144 | file bytes, then zeros to the end of the segment |
| `LoadedPrograms.PlacedReads` | kernel/process/process.c:123-144 | reading through the space's translation gives the segment's bytes |
| `LoadedPrograms.NewPlaced` | kernel/process/process.c:123-144 | after allocation, mapping and copying the new segment is in place |
| `LoadedPrograms.StaysAt` | kernel/process/process.c:120-144 | a segment in place in any space, of any image, keeps its bytes, pages, area and frames when frames are taken, tables grow, another segment's pages appear and a free run is written |
| `LoadedPrograms.LoadsStay` | kernel/process/process.c:120-144 | so loading a segment leaves everything loaded before in place, in every space |
| `LoadedPrograms.LoadsIsolated` | kernel/process/process.c:120-144 | a load keeps every user page of every space on a frame of its own, in use and no table |
| `LoadedPrograms.UndoneStays` | kernel/process/process.c:129-132 | a failed load, too, leaves everything loaded before in place, in every space |
| `LoadedPrograms.UndoneIsolated` | kernel/process/process.c:129-132 | a failed load leaves every user page on a frame of its own that is in use exactly if it had mapped no page |
| `LoadFailure.StrayPage` | kernel/process/process.c:120-133 | on any machine with four free low frames, the last three among them, a run in which a load fails and a page of the process stays mapped to a free frame outside any area |
| `LoadFailure.NeedsFour` | kernel/process/process.c:120-128 | a segment of two pages across a 4 MiB boundary takes four low frames in a new space |
| `ProcessLoader.LoadSegment` | kernel/process/process.c:120-144 | on success the segment is in place; on failure the areas are as before, the data frames have gone back, and exactly the first `stray` pages stay mapped to them, some exactly if the frames could be had and then the first page was free, overlapped no area, and had a table or a low frame left; other spaces, kernel tables and everything loaded are as before |
| `ProcessLoader.LoadImage` | kernel/process/process.c:77-147 | the same over the whole segment table, from any state: after a failure the segments before it are in place, and pages are isolated exactly if none is stray |
| `ProcessLoader.Process.Load` | kernel/process/process.c:70-150 | on success the address space contains the program: for every segment, whose descriptor is 16 + 20 * i bytes into the image, each byte read through translation is the file's or a zero behind it, its pages are writable exactly if bit 1 of its flags is set, its area has read, write and execute by bits 0, 1 and 2, is for the user and does not grow, and the user can reach all of it if the space had tables for the user only; what any process had loaded is in place; success needs a well-formed image, and a well-formed one is never refused as an argument; the segment table is never read beyond the image; on failure the entry point is unchanged, the first `n` segments are in place and `stray` pages of the next lie on free frames |
| `KernelStacks.SlotsApart` | kernel/mm/kernel_stack.c:28-39 | slots are disjoint pages above the direct map |
| `KernelStacks.StacksApart` | kernel/mm/kernel_stack.c:15-47 | distinct live stacks have disjoint frames |
| `KernelStacks.StacksKept` | kernel/mm/kernel_stack.c:15-78 | whatever keeps the kernel's pages and the frames that hold no table keeps all stacks |
| `KernelStacks.StackPool.TryPage` | kernel/mm/kernel_stack.c:35-38 | a page gets a fresh frame of its own; without a free frame nothing changes; if the page was mapped the frame is lost; user halves, other kernel pages, tables and other frames are as before |
| `KernelStacks.StackPool.DropPage` | kernel/mm/kernel_stack.c:65-68 | the page's own frame goes back, nothing in between can fail, and nothing else changes in any space |
| `KernelStacks.StackPool.Alloc` | kernel/mm/kernel_stack.c:15-47 | granted exactly for an empty descriptor if a slot is free, no page of the lowest free one is mapped and four frames are free: then that slot, its bit, its four pages and their frames, and nothing else in any space; otherwise which error, and how many pages stay in the free slot; something is left behind exactly if a slot and a frame are free and there are fewer than four frames or the slot is not clean; the descriptor of slot `pos` of 64 is the 0x4000 bytes from 0xF0000000 + 0x4000 * pos on, and every address in it is mapped, writable and for the kernel only, to a frame that was free and is on no other page of a slot |
| `KernelStacks.SlotDecides` | kernel/mm/kernel_stack.c:23-39 | the lowest free slot decides, and failed allocations left pages in it exactly if its first page is mapped |
| `FrameAllocator.CountNone` | kernel/mm/pmm.c:269-299 | the free counter is zero exactly if no frame is free |
| `KernelStacks.StackPool.Free` | kernel/mm/kernel_stack.c:49-78 | exactly this stack's bit, pages and frames go, and nothing else in any space; never fails on a live stack; no address of it is mapped any more and its frames are free |
| `KernelStacks.SameLedgerSameState` | kernel/mm/kernel_stack.c:15-78 | the same stacks mean the same frames in use and the same kernel translations |
| `KernelStacks.NoneBacked` | kernel/mm/kernel_stack.c:15-78 | without live stacks and leftovers no slot page is mapped |
| `KernelStacks.StackPool.AllocThenFree` | kernel/mm/kernel_stack.c:15-78 | allocating and freeing a stack restores bitmap, translations, frames and free count |
| `KernelStacks.OneFrameLeft` | kernel/mm/kernel_stack.c:34-39 | with one free frame in the machine the call fails, the frame stays mapped in slot 0, and the slot counts as free |
| `KernelRuns.LiveOwn` | kernel/mm/kernel_stack.c:15-47 | the frames of a live stack are in use and belong to no other stack, no table and no program, and no user page is on them when all user pages come from loads that left none stray |
| `KernelRuns.LiveBacked` | kernel/mm/kernel_stack.c:34-44 | all four pages of every stack handed out are mapped |
| `KernelRuns.LiveAddresses` | kernel/mm/kernel_stack.c:30-44 | every address of every stack handed out is mapped, to a frame that is on this page of this stack alone |
| `KernelRuns.QuietFrames` | kernel/mm/kernel_stack.c:15-78 | with no stack handed out, the frames in use but for tables are those of the start and of programs exactly if the leftovers of failed allocations are none, and then the kernel's pages are those outside slots |
| `KernelRuns.RanMore` | kernel/mm/kernel_stack.c:15-78 | leftovers never shrink, so a run leaves some exactly if one of its requests came in a state in which it does |
| `KernelRuns.GrantedAsMapped` | kernel/arch/x86/mm.c:61-90 | if all tables of processes were made for the user, the processor grants on every user page what its own entry says |
| `KernelRuns.BackAgain` | kernel/mm/kernel_stack.c:15-78 | with stacks and spaces gone and no program frame more, slots, frames in use and translations are those of any earlier such state |
| `KernelRuns.TidyAfterLoad` | kernel/process/process.c:120-144 | after a load without stray pages every user page is on a frame of a program |
| `KernelRuns.ServeUser` | kernel/mm/vmm.c:151-299 | any request on process spaces keeps all stacks, every frame that holds no table, and the kernel's own tables and pages |
| `KernelRuns.ServeKernel` | kernel/mm/kernel_vm.c:30-49 | any change of kernel pages outside the slots keeps all stacks, user pages and frames |
| `KernelRuns.ServeLoad` | kernel/process/process.c:70-150 | any load keeps all stacks, the kernel's pages and tables and every frame held; on success the program is in the space |
| `KernelRuns.AllocStack` | kernel/mm/kernel_stack.c:15-47 | a stack allocation keeps all process spaces with their areas |
| `KernelRuns.FreeStack` | kernel/mm/kernel_stack.c:49-78 | a release keeps all process spaces with their areas, and never fails on a stack handed out |
| `KernelRuns.System.New` | kernel/mm/kernel_stack.c:15-47 | a new descriptor, in the lowest free slot, joins those handed out exactly if slots, kernel pages and free frames before the call allow it; leftovers likewise |
| `KernelRuns.System.End` | kernel/mm/kernel_stack.c:49-78 | exactly this descriptor leaves them, whatever the order |
| `KernelRuns.System.Create` | kernel/process/process.c:46-60 | a process gets a new space and a new stack exactly if a low frame is free and with one frame less a stack can be had; otherwise spaces and stacks are as before, and leftovers are new exactly as the state before tells |
| `KernelRuns.System.Serve` | kernel/mm/kernel_stack.c:15-78 | what each request does to the stacks handed out and whether it leaves anything behind, told from the state before it; what it may do to the account of frames and kernel pages |
| `KernelRuns.System.Run` | kernel/process/process.c:22-150 | over every sequence of stack, process, page and loading requests: set bits are exactly the stacks handed out; each has four frames that no other stack, table or program has; with all given back, in any order, the frames in use but for tables are those of the start and of programs exactly if no request came in a state in which it leaves frames behind, and then the kernel's pages are the plain ones; with the spaces gone too, bitmap, frames, free count and translations are those of the start if nothing was loaded and no kernel page changed; pages stay isolated as long as no page is mapped by hand or left stray; every user page of every space is accessible to the user if no request left out VM_USER; the stack of slot `pos` is the 0x4000 bytes from 0xF0000000 + 0x4000 * pos on, and every address of it has such a frame |
| `KernelRuns.Start` | kernel/mm/kernel_vm.c:68-105 | after the kernel's set-up nothing is open, so that runs have a start |
| `Fat32Layout.SamePlace` | bootloader/x86/stage2/stage2.asm:159-177 | the loader's 32-bit sector numbers and the writer's byte offsets mean the same place |
| `Fat32Layout.PlacesExact` | tools/mkimage/fat32.c:10-22 | in sectors of 512 bytes: FATs after the reserved sectors, data after the FATs, clusters from number 2 on |
| `Fat32Layout.ClustersApart` | tools/mkimage/fat32.c:90-97 | distinct clusters do not overlap |
| `Fat32Layout.WriteCluster` | tools/mkimage/fat32.c:90-97 | writing a cluster changes that cluster and no other |
| `Fat32Entries.NameStart` | tools/mkimage/fat32.c:150-175 | no written name reads as an end mark, a deleted entry, `.` or `..` |
| `Fat32Entries.NamesCollide` | tools/mkimage/fat32.c:150-175 | two names become the same 8.3 name exactly if they agree but for case and a trailing dot |
| `Fat32Entries.CreateEntry` | tools/mkimage/fat32.c:146-185 | copying, padding and upper-casing in the fixed buffer give the 32 bytes of the entry: eleven bytes of the padded name with the letters 97 to 122 exchanged for those 32 below, attribute 0x10 or 0x20 at 11, the cluster's halves at 20 and 26 and the size at 28, lowest byte first, and zeros elsewhere |
| `Fat32Entries.Name83Exact` | tools/mkimage/fat32.c:150-173 | byte `i` of an entry name is the padded character, less 32 exactly if it is a small letter |
| `Fat32Entries.EntryFields` | tools/mkimage/fat32.c:175-184 | the reader gets back name, attributes, cluster and size |
| `Fat32Entries.EntryLaid` | tools/mkimage/fat32.c:175-184 | where every field of an entry lies, and that all else is zero |
| `Fat32Chains.NeededExact` | tools/mkimage/fat32.c:110-134 | the number of clusters is the size divided by the cluster size, rounded up |
| `Fat32Chains.FlatPiece` | tools/mkimage/fat32.c:90-97 | the k-th cluster of a chain is the k-th piece of its bytes |
| `Fat32Chains.ChainWord` | tools/mkimage/fat32.c:108-136 | the entry of every cluster but the last is the next, larger one, and that of the last 0x0FFFFFFF |
| `Fat32Writer.Writer.constructor` | tools/mkimage/fat32.c:27-49 | reserved entries, the root's chain, and everything from the next cluster on free |
| `Fat32Writer.Writer.ClusterAlloc` | tools/mkimage/fat32.c:52-69 | the lowest free entry at or after the next one becomes an end mark, or there is none and nothing changes |
| `Fat32Writer.Writer.Prepare` | tools/mkimage/fat32.c:253-265 | the tree with its nodes numbered in preorder, each a chain of its own, and nothing else of the tree changed |
| `Fat32Writer.Writer.WriteData` | tools/mkimage/fat32.c:108-136 | a strictly increasing linked chain from the first cluster to an end mark, of exactly the clusters needed, holding the bytes and then zeros; all other clusters and entries are as before; all entries beyond stay free |
| `Fat32Writer.Writer.WriteFile` | tools/mkimage/fat32.c:102-140 | the file is written, every other chain and node is as before |
| `Fat32Writer.Writer.DirectoryBytes` | tools/mkimage/fat32.c:190-242 | the listed entries in order, and zeros in all other slots |
| `Fat32Writer.ListingExact` | tools/mkimage/fat32.c:190-240 | `.` names the directory and `..` its parent, both with attribute 0x10 and size 0, and the children follow in order with their attributes, clusters and sizes |
| `Fat32Writer.Writer.WriteDirectory` | tools/mkimage/fat32.c:190-247 | the directory is written in its single cluster, every other chain and node is as before |
| `Fat32Writer.Writer.WriteTree` | tools/mkimage/fat32.c:271-281 | exactly the nodes of the tree get written, each as the final image needs it, using exactly the clusters counted beforehand |
| `Fat32Writer.Writer.Flush` | tools/mkimage/fat32.c:71-85 | every copy of the FAT holds the table, and the data area is untouched |
| `Fat32Writer.CopyWord` | tools/mkimage/fat32.c:71-85 | the entry of every cluster in every copy, as four bytes at their place on the disk, lowest first |
| `Fat32Writer.MakeImage` | tools/mkimage/main.c:84-98 | any tree of non-empty files that fits becomes an image of it |
| `Fat32Writer.ChainsOfImage` | tools/mkimage/fat32.c:27-140 | every node's chain is strictly increasing, ends in the end mark, has one cluster for a directory and the size rounded up for a file; chains of two nodes are disjoint; everything beyond is free |
| `Fat32Reader.ReadFatEntry` | bootloader/x86/stage2/stage2.asm:361-413 | the entry of the cluster without its four high bits, although only one sector is read |
| `Fat32Reader.Loader.LoadFile` | bootloader/x86/stage2/stage2.asm:564-623 | follows any ending chain, stores its clusters in order at a segmented address, ends with the pointer behind them, and fails exactly on a bad cluster |
| `Fat32Reader.StoredWhole` | bootloader/x86/stage2/stage2.asm:576-592 | with clusters below 64 KiB the stored clusters are one piece, across segment changes |
| `Fat32Reader.LoadExact` | bootloader/x86/stage2/stage2.asm:576-592 | every memory ends up holding the chain's bytes exactly if clusters are below 64 KiB or there is one only |
| `Fat32Reader.WideLoadFails` | bootloader/x86/stage2/stage2.asm:576-592 | a geometry, a disk and a memory with which a file of two clusters does not arrive |
| `Fat32Reader.StrideIsLowHalf` | bootloader/x86/stage2/stage2.asm:580-592 | the pointer moves by the low 16 bits of the cluster size |
| `Fat32Reader.ScanCluster` | bootloader/x86/stage2/stage2.asm:444-512 | the sector and entry loops stop at the first match or end mark of the cluster, and pass every entry before it |
| `Fat32Reader.FindEntry` | bootloader/x86/stage2/stage2.asm:422-555 | the first entry of the directory's chain that is not deleted, no part of a long name, no volume label and has the eleven bytes, before an entry that begins with 0; or none if there is none |
| `Fat32RoundTrip.ChainOnDisk` | bootloader/x86/stage2/stage2.asm:361-413 | the flushed table gives the loader the writer's chains |
| `Fat32RoundTrip.LookupExact` | bootloader/x86/stage2/stage2.asm:474-524 | in a written directory the look-up gives the entry of the first child of that name, and fails exactly if there is none |
| `Fat32RoundTrip.FindKid` | bootloader/x86/stage2/stage2.asm:422-555 | the same on the disk, for any directory of the tree |
| `Fat32RoundTrip.LoadKid` | bootloader/x86/stage2/stage2.asm:48-80 | looking up and loading any file of any directory ends, gives its size, and leaves in memory exactly its bytes padded with zeros to whole clusters |
| `Fat32RoundTrip.LoadPath` | bootloader/x86/stage2/stage2.asm:21-46 | loading `/dir/name` from the root finds the file exactly if both names exist, and then memory holds it |
| `Fat32RoundTrip.WriteThenLoad` | bootloader/x86/stage2/stage2.asm:21-46 | from any tree that fits, through the written disk, into memory: a path is found exactly if the tree has it, and then memory holds the file, zero-padded to whole clusters; byte by byte, with memory before it unchanged |
| `Fat32RoundTrip.BootNames` | bootloader/x86/stage2/stage2.asm:731-733 | `boot` and `kernel.bin` are written as `BOOT       ` and `KERNEL  BIN`, the names the loader looks for |
| `Fat32RoundTrip.BootKernel` | bootloader/x86/stage2/stage2.asm:21-46 | from a tree with `/boot/kernel.bin` the loader, looking for its own two names, has the kernel in memory byte by byte and knows its size |
| `Fat32RoundTrip.SamePath` | tools/mkimage/fat32.c:253-265 | assigning clusters changes nothing about what a path leads to |
| `Fat32Reader.EndExact` | bootloader/x86/stage2/stage2.asm:576-592 | the pointer advances by the low half of the cluster size for every cluster |
| `RingBuffer.MaskIsRemainder` | kernel/klib/ringbuf.c:22-22 | masking with a power of two less one is the remainder |
| `RingBuffer.SlotAfterWrap` | kernel/klib/ringbuf.c:18-24 | a counter that wrapped at 2^32 still selects the slot of the unbounded one |
| `RingBuffer.SlotsDiffer` | kernel/klib/ringbuf.c:18-24 | bytes of the queue never share a slot |
| `RingBuffer.Ring.Length` | kernel/klib/ringbuf.c:12-12 | the 32-bit difference is the number of bytes, also across a wrap |
| `RingBuffer.Ring.IsEmpty` | kernel/klib/ringbuf.c:11-11 | equal counters mean an empty queue, and never a full one |
| `RingBuffer.Ring.Overwrite` | kernel/klib/ringbuf.c:18-24 | the last `cap` bytes of the queue and the new one |
| `RingBuffer.Ring.Push` | kernel/klib/ringbuf.c:26-32 | refused exactly by a full queue, which stays as it is |
| `RingBuffer.Ring.Pop` | kernel/klib/ringbuf.c:34-43 | the oldest byte leaves, or the queue is empty |
| `RingBuffer.Ring.Peek` | kernel/klib/ringbuf.c:45-56 | the byte at the index from the oldest, refused exactly beyond the end |
| `RingBuffer.Ring.Run` | kernel/klib/ringbuf.c:11-56 | any sequence of operations answers and ends as a bounded queue does |
| `RingBuffer.LastOfLast` | kernel/klib/ringbuf.c:18-24 | dropping the oldest bytes early or late comes to the same |
| `RingBuffer.LastIsEnd` | kernel/klib/ringbuf.c:18-24 | what is kept is the end of what was put in |
| `Syslog.Log.Put` | kernel/log/syslog.c:16-20 | one byte is appended, the oldest dropped when full; nothing before set-up |
| `Syslog.Log.Write` | kernel/log/syslog.c:22-27 | the log keeps the last 4096 bytes of what it held and the text |
| `Syslog.Log.Read` | kernel/log/syslog.c:36-63 | as much as fits from the oldest byte on, a terminator, and nothing else of the destination or the log changes |
| `Syslog.Log.Session` | kernel/log/syslog.c:22-63 | after any texts a reader gets a prefix of the last min(n, 4096) bytes written |
| `Conv.TextFits` | kernel/include/klib/conv.h:11-14 | text and terminator never exceed 33, 12, 12 and 9 characters in bases 2, 8, 10 and 16 |
| `Conv.DigitsBack` | kernel/klib/conv.c:28-65 | reading digits takes back writing them, in every base from 2 to 16 and whatever follows |
| `Conv.DigitCharacters` | kernel/klib/conv.c:28-65 | digits are the characters 0-9 and A-F, read in both cases, and no other character is one; the sign is `-` |
| `Conv.OneDigit` | kernel/klib/conv.c:26-32 | a number below the base is its one digit, without leading zeros |
| `Conv.SplitDigits` | kernel/klib/conv.c:26-32 | the digits of a number are those of its quotient and then the remainder's |
| `Conv.RoundTrip` | kernel/klib/conv.c:5-83 | the text of a number is read within 32 bits exactly if it is not negative, or is in base 10 and above the least number; then reading gives the number |
| `Conv.OutOfRange` | kernel/klib/conv.c:5-83 | two numbers whose text reads as a value beyond 32 bits: -1 in base 16 and the least one in base 10 |
| `Conv.Extract` | kernel/klib/conv.c:26-32 | the digit loop leaves the digits in reverse |
| `Conv.Reverse` | kernel/klib/conv.c:39-43 | the swaps reverse the digits in place and touch nothing else |
| `Conv.Itoa` | kernel/klib/conv.c:5-44 | sign, digits and terminator are in the buffer, the rest of it is untouched |
| `Conv.Atoi` | kernel/klib/conv.c:46-83 | the value of the leading digits with the sign, without leaving 32 bits on the way |
| `Conv.WriteThenRead` | kernel/klib/conv.c:5-83 | writing a number into a buffer and reading it again gives the number |

## Left out

- Hardware effects: `invlpg`, CR3 and EFLAGS access, descriptor tables, interrupts, the real-mode MBR and VBR code. They have no value that the model could speak of.
- Console, printing, panic, boot logging, devices, drivers, timers and `kheap_dump`: display code and small tables that would only add easy members.
- `pmm_reserve` and `pmm_unreserve`: unused copies of the allocation and freeing loops.
- Null pointers as arguments of kernel functions: objects are never null here; `syslog_read` with a null destination is modelled.
- `klib/memory.c`, `klib/string.c`: used as what they compute (zeroing, copying, the first dot of a name).
- `tools/mkimage/tree.c` and `parser.c`: the tree to write is given. Nodes are values, and assigning clusters returns a tree instead of updating nodes; aliasing of nodes is not captured.
- KernelHeap.Heap.Kmalloc: is stated for sizes up to 0xFFFFFFE8, as `KernelHeap.BlockSizeExact` shows that larger ones wrap.
- KernelHeap.Heap.Kfree: takes null, out-of-range and misaligned pointers and pointers to blocks, live or free; other pointers into the heap read a header that is not one.
- FrameInit.Init: assumes memory-map entries that do not wrap and end below 2^44, and takes the bitmap's storage as separate from the memory it describes.
- PageTables: an entry's frame number is as large as the address stored; `Paging.PageMapping` cuts frames to 20 bits as the 32-bit store does, so that a range whose physical end lies above 4 GiB wraps there.
- Paging.Mmu.Map: no large pages exist in any reachable state, so the answers for them are not modelled.
- VirtualMemory.Vmm: the area list is a sequence, not the linked list of `IntrusiveList`, and `vm_space` records are a dictionary by directory; whether the heap supplies an area record is an argument, which `AreaRecords.Keeper` takes from the heap.
- AreaRecords.Keeper: the heap's words and the page tables' memory are separate objects, and what a record's words hold is not tied to its area.
- VirtualMemory.Vmm.Map: leaves out the arguments with `virt + size == 2^32`, which the check wrongly accepts (`VirtualMemory.UserRangeExact`) and with which the area list breaks (`VirtualMemory.AddVma`).
- VirtualMemory.Vmm.Run: speaks of the pages of areas in every run, and of pages outside areas only in spaces where no page-table mapping stopped part-way, since those keep stray pages; execute permission has no bit in these tables.
- ProcessLoader.Process.Load: the image is a sequence of bytes apart from the memory that is allocated, as the reserved first MiB is; segments loaded before a failure stay, as in the code.
- LoadedPrograms.Isolated: speaks of pages; that a process's data frames are never given back, not even by `vm_space_destroy`, is the code's behaviour, and `KernelRuns.Books` keeps them in `data`.
- KernelStacks.StackPool.Free: takes empty descriptors and those of live stacks; any other base makes the code release pages that are no stack's.
- KernelStacks.StackPool: machines with at most 4 GiB; `stack_pointer` and the unused parts of a descriptor are left out.
- KernelRuns.System.Run: kernel mappings on slot pages by anyone but the stack pool are skipped, as are requests outside the domains of `VirtualMemory.Vmm`; process identifiers, the process table and the process record that `process_create` allocates are left out.
- Fat32Writer.MakeImage: files are not empty (an empty one makes the writer store through entry 0), the tree fits the data area and the FAT, directories fit one cluster, names fit the buffers of `fat32_create_entry` and are ASCII.
- Fat32Layout: MBR and boot sector as bytes; both sides are given the same parameters, which the loader copies from where the writer put them, with `hidden_sectors` equal to `lba_start` and 512-byte sectors.
- Fat32Reader.FindEntry: disk reads succeed, the chain ends, and the directory's chain is given to the proof; a cyclic chain makes the loader run forever. The same for `Fat32Reader.Loader.LoadFile`.
- Fat32Reader.Loader.ReadCluster: a transfer by the BIOS that crosses the end of the 64 KiB segment is taken to go on linearly; what a BIOS does there differs.
- RingBuffer.Ring: `ringbuf_is_full` and `ringbuf_available` are differences of `Length`; optional output pointers are answers.
- Conv.Itoa: bases 2 to 16; `Conv.Atoi` takes texts whose value fits 32 bits, as the C code's signed arithmetic is undefined beyond.

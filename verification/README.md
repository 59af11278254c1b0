# Project K in Dafny

A model of the memory, task and scheduling core of Project K, a small 32-bit x86 kernel, with proofs. Each module
follows one part of `src/kernel`; what the C code changes in place is a class with fields, arrays and loops here, and
every such method is proved against functions and relations on values, about which the theorems are proved.

- **Words, PageTables, PhysicalCopy**: words, little-endian page-table entries inside 4 KiB frames, the processor's
  two-level walk, and physical memory as a flat range of bytes.
- **Bitmaps, Multiboot, BootFormat, Pmm, BootMaps**: the frame allocator over its bitmap, what the boot loader's memory map
  makes free, a map as boot loaders give it, and two maps on which that goes wrong. BootFormat writes such structures, and
  reading gives back what was written.
- **Ownership**: the central invariant. A ghost map gives each frame that is not free exactly one role: the kernel
  directory, a kernel table, the directory, a private table or a mapped page of one address space, a page of the heap, or
  held by a caller. The lemmas show that mapping, creating, destroying and copying keep it, and what they do to every
  translation.
- **Teardown, Paging**: `paging.c` in place, on top of these lemmas. `Valid` says that free and owned frames split
  the managed ones, so no frame is lost, freed twice or shared. Ownership of tables is the intended set there;
  **OwnedWords** has the words as they are declared and says when they serve as that set.
- **Blocks, Heap**: the heap as a sequence of adjacent blocks (tiling, first fit, split and coalesce as inverses) and the
  linked list of headers in place that represents it, growing page by page. **KernelReach**: which page tables the kernel
  still reaches by their physical addresses when the heap has grown.
- **ElfImage, ElfFormat, Budgets, SpaceSteps, PagePlacing, ElfLoader, LoadedExample**: validation as an if-and-only-if, the
  layout of the file as a round trip, the loader page by page, and a program from its file to its pages.
  A step on one address space leaves everybody else's frames, bytes and translations alone. What pages cost is a
  function of the free frames and the tables that are there; the loader succeeds exactly if they can be paid for.
- **NewSpace, SpaceBuilding, Processes, Threads, Tasks**: the chain of allocations that makes a task, with its rollback. How
  a creation ends is a function of the state before it; a failing one restores every table and every byte of the frame
  bitmap, or loses exactly one frame on inputs that are named.
- **Scheduling, Scheduler**: the round-robin scheduler as a step machine with all its theorems over runs, and the code that
  refines it.
- **Keyboard**: the ring buffer as a step machine in which interrupts come between any two steps of the reader.
- **Calls**: blocking, waking and ending threads, and SYS_EXIT, from the whole machine.
- **Framebuffer, SelfTests**: what start-up does to memory between these: the framebuffer is mapped into the kernel's address
  space, and the kernel tests its allocator and its heap.
- **Boot, LostFrame**: start-up from the memory map to the invariant of the whole machine, and a run from there on which a
  frame is lost.

An invariant called `Valid` (or `Inv`, `Ok`) is required and ensured by every operation. `Boot.Start` goes through
`kernel_main` up to `task_initialize` with everything in it that touches this state (the allocator, paging, the framebuffer,
the test of the allocator, the heap and its test, the task tables) and ends in the invariant of the whole machine, with the
number of free frames known. Task creation and scheduling (`Tasks`) and the other calls (`Calls`) keep it, so it holds after
every sequence of them.

## Findings

Promises that the code does not keep, each with an input and with the exact condition under which it does:

- **Memory-map entries**: an available entry that ends exactly at 4 GiB frees nothing, even where it reaches below 128 MiB
  (`BootMaps.WholeMapFreesNothing`), and one that starts past 0xFFFFF000 and ends before 4 GiB frees all of memory
  (`BootMaps.LastPageMapFreesAll`). All other entries are exact (`Pmm.EntryExact`).
- **Ownership of page tables (`OwnedWords`)**: `owned_page_tables` is declared with one word and indexed with words 8 to 15,
  which are the words of later slots. With five spaces, creating the fifth clears the first one's bit for 0x40000000
  (`FifthSpaceForgets`); the table of the stack sets a bit in the `page_directory` of the slot eight places on
  (`StackMarksDirectory`). `MarkExact`, `CreateExact` and `DestroyExact` say for each of the three changes exactly when
  the words still serve as the intended set, and `FourSlotsAgree` that they do so over every run on the first four slots.
  Creating a space, making tables and destroying it puts the words back if and only if the slot was blank and every bit that
  the tables set was set before (`RollbackExact`, `LateFailureExact` for a task creation that fails late). A teardown gives
  back exactly the frames of the space if and only if the test is right at every entry that is present (`TeardownExact`).
- **The heap window in the identity map (`KernelReach`)**: page tables are edited at their physical addresses, and the window
  of the heap lies among those. The kernel reaches the low frame f there if and only if f is outside the committed part of
  the window or the heap has mapped frame f at this very page (`KernelReaches`). Clearing a new table in any other frame
  clears a page of the heap instead and leaves the table as it was (`ClearsTableOrHeap`); the first page of the heap already
  hides frame 4096 when lower frames are free (`FirstPageHides`).
- **Large requests (`Heap.KernelHeap.Kmalloc`)**: what `kmalloc` hands out is usable exactly if none of its additions wraps;
  a request of 0xFFFFFFF0 bytes is an example (`Heap.WrappingRequest`).
- **Alignment of the heap (`Blocks.EightAligned`)**: `HEAP_ALIGNMENT` is 8, but only sizes are rounded to it. A pointer that
  `kmalloc` returns is a multiple of 4 (`Heap.PointersAligned`), and of 8 if and only if the blocks before it end half-way
  between two multiples of 8; the first one, 0x0100000C, is not.
- **An image over the stack page (`Tasks.LosesFrame`)**: validation accepts a segment that covers page 0x7FFFF000
  (`NewSpace.StackImageAccepted`). Mapping the stack then replaces the frame of that page, and nobody frees it: even a
  success loses one frame, and a failing call is all-or-nothing if and only if the image does not cover the page or the
  call fails before its address space is complete (`Tasks.TaskManager.CreateUserElf`). `LostFrame.LoseFromStart` is a run
  from start-up to such a failure.
- **Exit (`Scheduling.ExitExact`, `Calls.ExitSyscall`)**: SYS_EXIT terminates what the thread table calls the current thread,
  and that is thread 0 ever since start-up; the scheduler keeps a variable of its own. The caller has exited if and only if
  it is that thread and another one is READY. From the first thread that is created the call ends thread 0, and the caller
  runs on (`Scheduling.ExitRunsOn`).
- **A large framebuffer (`Framebuffer.IdentityExact`)**: its pages are mapped from 0xE0000000 on, around the end of the
  address space. Low memory stays mapped onto itself if and only if there are at most 131072 of them or they lie at
  0xE0000000 (`LargeScreen`, `LargeMode` for an input). The pages reach to the last byte of the screen if and only if none of
  the 32-bit operations on its size wraps (`PagesCover`).
- **The test of the allocator (`SelfTests.TestPmm`)**: it passes if and only if 16 frames are free, and then
  changes nothing; with fewer it gives up and keeps them all, so none is free afterwards.
- **Nobody READY (`Scheduling.ResumesRunnable`)**: when no thread is READY and the current one is BLOCKED or TERMINATED, the
  scheduler marks it RUNNING again; after start-up one block and one tick do it (`Scheduling.BlockedRunsOn`).
- **Zombies (`Scheduling.ReclaimedExactly`)**: a TERMINATED thread gets its slot and stack back if and only if it is the
  current thread and the next call of the scheduler finds another one READY; a thread that another one terminates keeps them
  (`Scheduling.ZombieFromStart`).

Besides:

- **Dead branches**: the rollback of the mapping loop in `commit_pages`, the failure of a page-sized
  `paging_copy_to_physical`, the test for a wrapped segment end in `elf_load` and the clamp of `heap_used` in `kfree` are
  never reached; the first three are marked where they would stand.
- **A comment that the code contradicts**: `release_loaded_pages` (src/kernel/elf.c:194-223) says that the destructor leaves
  user frames to the loader and frees nothing itself; `paging_destroy_address_space` does free them, and the model follows
  the code.

## Model
| member | source | states |
|---|---|---|
| Bitmaps.BitmapDetermined | src/kernel/pmm.c:16-33 | The set of clear bits determines every byte of a frame bitmap: equal free sets mean equal bitmaps. |
| Bitmaps.Bitmap.ClearBit | src/kernel/pmm.c:22-26 | Clearing the bit of one frame frees that frame and no other. |
| Pmm.EntryExact | src/kernel/pmm.c:35-71 | An accepted memory-map entry frees exactly the frames below 128 MiB wholly inside it if and only if it is harmless: it does not start below the last frame of these 128 MiB and end exactly at 4 GiB (then it frees nothing), and it does not start past 0xFFFFF000 and end before 4 GiB (then it frees all of memory). |
| BootMaps.WholeMapFreesNothing | src/kernel/pmm.c:35-71 | A well-formed structure whose one entry makes all memory below 4 GiB available frees nothing. |
| BootMaps.LastPageMapFreesAll | src/kernel/pmm.c:35-71 | A well-formed structure whose one entry is a kilobyte at 0xFFFFF800 frees every frame. |
| BootMaps.UsualMapFreesBoth | src/kernel/pmm.c:112-170 | A map of four entries: exactly the whole frames of the two that are available and below 4 GiB are freed. |
| Pmm.OnlyAvailable | src/kernel/pmm.c:141-158 | An entry frees something only if it is of type 1, not empty and ends at or below 4 GiB. |
| BootFormat.EntryRead | src/kernel/multiboot.h:34-40 | Reading an entry gives these values if and only if its bytes are base, length and type, in this order and little-endian. |
| BootFormat.EntriesAre | src/kernel/pmm.c:112-170 | The entries that the walk reads are exactly those at 16 + k * entry_size, before the end of the tag, of the memory-map tags that are reached from the first tag, each tag at the least multiple of 8 behind the one before it, up to the end tag. |
| BootFormat.StructureRead | src/kernel/multiboot.h:14-40 | Every list of tags, written one after the other, is well formed and gives back the entries of its memory maps in order. |
| Pmm.RangeReserved | src/kernel/pmm.c:73-110 | A used range that does not wrap reserves every frame it touches, rounding outwards, and no other. |
| Pmm.FrameAllocator.MarkRangeFree | src/kernel/pmm.c:35-71 | The free set gains exactly the interval of the range, clipped to 128 MiB; the count follows even when ranges overlap. |
| Pmm.FrameAllocator.MarkRangeUsed | src/kernel/pmm.c:73-110 | The free set loses and the reserved set gains exactly the interval of the range. |
| Pmm.ClearedIsAvailable | src/kernel/pmm.c:112-170 | Over a whole memory map of harmless entries a frame is freed if and only if it lies wholly inside some accepted entry. |
| Pmm.FrameAllocator.ParseMemoryMap | src/kernel/pmm.c:112-170 | The nested loops end on every well-formed structure and free the union of what its entries free. |
| Pmm.FrameAllocator.Initialize | src/kernel/pmm.c:172-219 | After start-up the reserved frames are frame 0 and those of the boot information and the kernel image, and exactly the other frames that the memory map clears are free; where no range wraps, a frame is free if and only if it lies wholly inside the bytes of an accepted entry of the structure and touches none of the three. |
| Pmm.FrameAllocator.AllocFrame | src/kernel/pmm.c:231-247 | Returns the least free frame and takes it, or 0 exactly if none is free; a reserved frame is never returned. |
| Pmm.FrameAllocator.FreeFrame | src/kernel/pmm.c:249-265 | Frees the frame unless it is out of range or reserved; freeing a free frame changes nothing. |
| Pmm.AllocThenFree | src/kernel/pmm.c:231-265 | Allocating and freeing restores every byte of the bitmap and the count. |
| Pmm.SameFreeSameBytes | src/kernel/pmm.c:16-33 | Two states of the allocator with the same free frames have the same bitmap bytes and the same count. |
| Pmm.CountIsCardinality | src/kernel/pmm.c:226-229 | The free counter is the number of free frames. |
| PageTables.MapRefinesFlat | src/kernel/paging.c:150-224 | Writing one entry of a two-level table changes the processor's walk at exactly one page, also when a zeroed table is created for it. |
| Ownership.UserMapKeepsInv | src/kernel/paging.c:538-613 | Mapping a user page keeps the ownership invariant: every frame in use has exactly one role and every role in use has its frame. |
| Ownership.UserMapRefines | src/kernel/paging.c:538-613 | Mapping a page in one space updates that space's translation at one page and no other translation of any space or of the kernel. |
| Ownership.KernelMapKeepsInv | src/kernel/paging.c:398-454 | Mapping or unmapping a kernel page keeps the ownership invariant. |
| Ownership.KernelMapRefines | src/kernel/paging.c:398-454 | A kernel mapping changes one page, and a user space sees the change exactly if it shares the kernel's table there. |
| Ownership.CreateKeepsInv | src/kernel/paging.c:466-536 | A new address space keeps the ownership invariant. |
| Ownership.CreateRefines | src/kernel/paging.c:466-536 | A new space translates exactly as the kernel does and offers ring 3 nothing; no other translation changes. |
| Ownership.DestroyKeepsInv | src/kernel/paging.c:634-771 | Tearing a space down keeps the ownership invariant. |
| Ownership.DestroyRefines | src/kernel/paging.c:634-771 | Tearing a space down changes no translation of the kernel or of another space. |
| Ownership.Isolation | src/kernel/paging.c:538-613 | In every state, a page that ring 3 can reach lies between 0x40000000 and 0x7FFFFFFF, on a frame that serves this page of this space only. |
| Ownership.NoSharing | src/kernel/paging.c:538-613 | In every state, two pages that ring 3 can reach, of one space or of two, never share a frame. |
| Ownership.OneFramePerRole | src/kernel/paging.c:466-613 | No two frames serve the same purpose: the kernel has one directory, a space one directory, one table for each directory entry that it owns and one frame for each page that its tables map. |
| Teardown.AllReleased | src/kernel/paging.c:634-771 | The order of the teardown loops visits every frame of the space, its directory last, and no two frames at the same step. |
| Paging.FramesConserved | src/kernel/paging.c:466-771 | In every state the free frames and the owned frames add up to the managed ones, and the free counter is right. |
| Paging.AddressSpaces.Initialize | src/kernel/paging.c:308-396 | Start-up establishes all invariants; the first 32 MiB are mapped onto themselves and nothing else is mapped, and only the kernel's directory and tables are in use. |
| Boot.Start | src/kernel.c:216-430 | From a memory map, through the allocator, paging, the framebuffer, the test of the allocator, the heap, its test and the task tables, to the invariant of the whole machine. Free are then all frames that the map gives and that neither the kernel image nor the boot information nor frame 0 takes, less one low frame for each table of the framebuffer and one for the heap; or none, if the allocator's test finds fewer than 16. |
| Framebuffer.FindFramebufferTag | src/drivers/framebuffer.c:101-139 | The walk ends on every well-formed structure with the first framebuffer tag before the end tag. |
| Framebuffer.FindsFirst | src/drivers/framebuffer.c:101-139 | What is found is a framebuffer tag that is reached from the first tag, and no tag before it is one. |
| Framebuffer.FirstIsFound | src/drivers/framebuffer.c:101-139 | The first framebuffer tag that is reached is found, unless a tag before it is shorter than its header. |
| Framebuffer.ModeLimits | src/drivers/framebuffer.c:141-157 | Accepted are RGB modes of 32 bits a pixel up to the last address below 4 GiB; palette and text modes, 24 bits, and 4 GiB are refused. |
| Framebuffer.ModeRead | src/kernel/multiboot.h:42-58 | Reading the tag gives these values if and only if its bytes are address, pitch, width, height, bits a pixel and kind, in this order. |
| Framebuffer.ShowScreen | src/drivers/framebuffer.c:181-202 | The mapping loop succeeds exactly if there is a low frame for every table that is missing; otherwise it stops with no low frame left and keeps what it has mapped. After n pages the kernel's translation has changed at those n pages only. |
| Framebuffer.Initialize | src/drivers/framebuffer.c:141-202 | Fails without a supported mode of at least one page, and otherwise exactly when the loop does. |
| Framebuffer.PagesCover | src/drivers/framebuffer.c:159-179 | The pages reach to the last byte of the screen if and only if none of the 32-bit operations wraps. |
| Framebuffer.PagesLeast | src/drivers/framebuffer.c:159-179 | Then there is no page too many: the last byte lies in the last page. |
| Framebuffer.PixelShown | src/drivers/framebuffer.c:181-218 | Each byte of a mapped page of the screen is found at the framebuffer's virtual address, at the same offset. |
| Framebuffer.IdentityExact | src/drivers/framebuffer.c:181-202 | Low memory stays mapped onto itself if and only if at most 131072 pages have been mapped or the screen lies at 0xE0000000. |
| Framebuffer.LargeScreen | src/drivers/framebuffer.c:181-202 | Mapping one page more than that puts a page of the screen over page 0. |
| SelfTests.TestPmm | src/kernel.c:599-674 | Passes if and only if 16 frames are free, and then changes nothing; otherwise no frame is free afterwards. |
| SelfTests.TestHeap | src/kernel.c:528-597 | On a new heap the test passes if and only if there is a frame for its first page; it leaves one free block and no allocation. |
| Paging.AddressSpaces.CreatePageTable | src/kernel/paging.c:95-148 | Takes the least free frame for a zeroed table, or changes nothing; it succeeds exactly if a frame below 32 MiB can be had and the directory can be reached. |
| Paging.AddressSpaces.MapPageInDirectory | src/kernel/paging.c:150-224 | Writes exactly one page-table entry and, if need be, one directory entry and a zeroed table; on failure nothing has changed. |
| Paging.AddressSpaces.MapPage | src/kernel/paging.c:398-410 | Maps a kernel page; fails exactly if a table is missing and none can be made, and then changes nothing. |
| Paging.AddressSpaces.UnmapPage | src/kernel/paging.c:412-454 | Clears the entry of a kernel page exactly if its table exists. |
| Paging.AddressSpaces.CreateAddressSpace | src/kernel/paging.c:466-536 | Takes the first unused slot and the least free frame; fails exactly if no slot or no low frame is to be had, and then changes nothing. |
| Paging.AddressSpaces.MapUserPage | src/kernel/paging.c:538-613 | Succeeds exactly for a page of the user range in a used space whose table there is its own or can be made; a failed call changes no translation and no frame. |
| Paging.AddressSpaces.SwitchAddressSpace | src/kernel/paging.c:616-632 | Null and a destroyed space are ignored; otherwise the space's directory becomes the active one. |
| Paging.AddressSpaces.DestroyAddressSpace | src/kernel/paging.c:634-771 | Frees exactly the directory, the owned tables and the mapped frames of the space; the active directory is never one that has been freed. |
| OwnedWords.BitsAre | src/kernel/paging.c:226-268 | The bits of a word are its 32 binary digits. |
| OwnedWords.MarkExact | src/kernel/paging.c:226-246 | With the ownership words where they are declared, marking a table leaves them right if and only if the bit falls into no directory that lacks it and no test for a shared table of another space. |
| OwnedWords.CreateExact | src/kernel/paging.c:466-536 | Creating a space leaves the ownership words right if and only if its two words hold no other space's bits and none of the words it will test claims a shared table. |
| OwnedWords.DestroyExact | src/kernel/paging.c:757-771 | Destroying a space leaves the ownership words right if and only if no other space has a bit in its two words. |
| OwnedWords.FourSlotsAgree | src/kernel/paging.c:226-268 | Over every run of creations, marks and destructions on the first four slots, while the kernel has no table in the user range, the words as written serve as the intended bitmap. |
| OwnedWords.FifthSpaceForgets | src/kernel/paging.c:226-268 | With five spaces, creating the fifth makes the test deny a table that the first one owns. |
| OwnedWords.StackMarksDirectory | src/kernel/paging.c:226-246 | Marking the table of the stack writes into the directory address of another slot, and destroying the space does not undo it unless the bit was set. |
| OwnedWords.RollbackExact | src/kernel/paging.c:226-246 | Creating a space, marking any tables and destroying it puts every word back if and only if the slot was blank and each bit that the marks set was set before. |
| OwnedWords.LateFailureExact | src/kernel/task.c:120-226 | A task creation that fails after its address space is complete leaves the words as they were if and only if the bits of all its tables were set before; it never does so when the bit of the stack's table was clear. |
| OwnedWords.BlankAgree | src/kernel/paging.c:372-390 | After start-up the words serve as the intended bitmap. |
| OwnedWords.TeardownExact | src/kernel/paging.c:634-771 | The teardown gives back exactly the frames of the space if and only if the test is right at every entry that is present: it finds each table that the space owns and claims none that it shares with the kernel. |
| OwnedWords.AgreesFinds | src/kernel/paging.c:248-268 | Words that serve as the intended bitmap make the test right for every teardown. |
| Paging.AddressSpaces.CopyToPhysical | src/kernel/paging.c:773-819 | For every range that does not wrap and keeps off the window's table and the directory in use, however it lies across pages, the chunked copy writes exactly the given bytes at the given place and leaves the window closed; in frames of data it keeps the invariant. |
| Paging.AddressSpaces.CopyFromPhysical | src/kernel/paging.c:821-867 | Delivers exactly the bytes of every range that does not wrap and keeps off the window's table, changes no memory, keeps the invariant and leaves the window closed. |
| Paging.AddressSpaces.CopyThenReadBack | src/kernel/paging.c:773-867 | Bytes copied to physical memory come back unchanged. |
| Paging.CopyKeepsWalks | src/kernel/paging.c:271-306 | A copy into data frames changes no translation outside the temporary window. |
| KernelReach.KernelReaches | src/kernel/heap.c:114-213 | The kernel reaches a low frame by its physical address if and only if the committed heap has mapped no other frame there. |
| KernelReach.ClearsTableOrHeap | src/kernel/paging.c:95-148 | Clearing a new table, each store through the kernel's own translation, clears the table's frame and nothing else if the kernel reaches it; otherwise it clears a page of the heap and leaves the table's frame as it was. |
| KernelReach.FirstPageHides | src/kernel/heap.c:114-213 | The first page that a new heap commits makes the kernel lose sight of frame 4096 when a lower frame was free, and that frame can still be given out. |
| Heap.WrappingRequest | src/kernel/heap.c:21-31 | A request of 0xFFFFFFF0 bytes on an empty heap is served at the start of the window without committing a page, and leaves the heap out of order. |
| Blocks.FirstFitUnique | src/kernel/heap.c:33-46 | The search for a block finds the first one that fits. |
| Blocks.LiveDisjoint | src/kernel/heap.c:222-293 | No two allocations overlap, headers included. |
| Blocks.ReuseAllocates | src/kernel/heap.c:61-88 | Serving a request from the list adds exactly one allocation at the old address of the block; nothing else moves or changes size. |
| Blocks.SplitsExactly | src/kernel/heap.c:61-88 | A block is split if and only if a header and at least 16 bytes are left over; otherwise the request gets all of it. |
| Blocks.AppendAllocates | src/kernel/heap.c:255-293 | Serving a request behind the last block extends the tiling by exactly that block. |
| Blocks.CoalesceMeans | src/kernel/heap.c:90-112 | Merging leaves no two adjacent free blocks and changes no allocation, no extent and no count. |
| Blocks.ReleaseFrees | src/kernel/heap.c:295-316 | Freeing a block gives up exactly that allocation, lowers the use by its size and leaves the canonical form. |
| Blocks.ReleaseUndoesReuse | src/kernel/heap.c:61-112 | kfree after a kmalloc served from the list restores the block list exactly: splitting and coalescing are inverse. |
| Blocks.ReleaseUndoesAppend | src/kernel/heap.c:222-316 | kfree after a kmalloc that extended the heap leaves only free space at the tail, with the old use and the old allocations. |
| Heap.SplitLinked | src/kernel/heap.c:61-88 | The two header stores of a split turn the linked list of the old blocks into that of the new ones. |
| Heap.MergeLinked | src/kernel/heap.c:90-112 | The header store of a merge does the same. |
| Heap.KernelHeap.FindFreeBlock | src/kernel/heap.c:33-46 | Walking the list returns the first block that fits, or null. |
| Heap.KernelHeap.CoalesceFreeBlocks | src/kernel/heap.c:90-112 | Walking the list in place yields the coalesced block sequence. |
| Heap.KernelHeap.CommitPages | src/kernel/heap.c:114-213 | Growth is atomic: it raises the committed size to the page-rounded end, on as many new frames as new pages, or changes nothing; it fails exactly if the window is too small or the frames do not suffice. |
| Heap.KernelHeap.Kmalloc | src/kernel/heap.c:222-293 | Adds one allocation, first fit; fails exactly for size 0 or if nothing fits and the heap cannot grow, and then changes nothing, frames included. The allocation holds the request inside the committed pages if and only if none of the 32-bit additions wraps. |
| Heap.AlignUpLeast | src/kernel/heap.c:21-25 | Unless the addition wraps, the size is the least multiple of 8 that holds the request. |
| Blocks.AddressAligned | src/kernel/heap.c:222-316 | Every block of such a list, and its payload, lies at a multiple of 4. |
| Heap.PointersAligned | src/kernel/heap.c:222-316 | In every state of the heap each live pointer and its size are multiples of 4. |
| Blocks.EightAligned | src/kernel/heap.c:222-293 | A pointer is a multiple of 8 if and only if the blocks before it end half-way between two such multiples; the first pointer never is. |
| Heap.GrowsToEnd | src/kernel/heap.c:114-213 | The committed end that a new block asks for is the least multiple of 4096 behind it. |
| Heap.WholeWindow | src/kernel/heap.c:114-213 | The window can be committed up to exactly 4 MiB, with one free frame for each page that is missing. |
| Heap.KernelHeap.Kfree | src/kernel/heap.c:295-316 | Takes exactly this allocation away; null and a free block are left alone; the use never needs its clamp. |
| Heap.KernelHeap.MallocThenFree | src/kernel/heap.c:222-316 | kmalloc and kfree in sequence restore allocations and use, and the block list itself when it served the request. |
| ElfImage.RangeInsideImage | src/kernel/elf.c:7-20 | The range test is exact: offset plus size stays within the image, without 32-bit wrap-around. |
| ElfImage.RangeInsideUserSpace | src/kernel/elf.c:22-40 | The range test is exact for non-empty ranges of the user address range. |
| ElfImage.BoundsMean | src/kernel/elf.c:165-185 | The lowest and highest address found by the loop bound exactly the loadable segments. |
| ElfImage.Validate | src/kernel/elf.c:60-192 | Accepts an image if and only if its header, every loadable segment and its entry point are as required. |
| ElfImage.SegmentLimits | src/kernel/elf.c:7-185 | On both sides of each limit of a segment: the end of the image, the file size and the memory size, the two ends of user space, the place in the page. |
| ElfFormat.SegmentRead | src/kernel/elf.h:50-61 | Reading program header i gives these values if and only if its 32 bytes are type, offset, virtual address, physical address, file size, memory size, flags and alignment, in this order. |
| ElfFormat.FileHeaderRead | src/kernel/elf.h:27-48 | Of a file that begins with a given header the validator reads its entry point, its table offset and its number of headers, and accepts the header exactly for a 32-bit little-endian i386 executable with its table inside the file. |
| ElfFormat.ExecutableRead | src/kernel/elf.h:27-61 | Every list of segments comes back from the file that is written for it, with its entry point and its contents. |
| LoadedExample.EntryLimits | src/kernel/elf.c:165-192 | An entry point is accepted from the lowest address of the segments on and before their highest end, and on neither side beyond. |
| LoadedExample.LoadProgram | src/kernel/elf.c:225-450 | A program with a text segment and a data segment at different file offsets: the bytes of the file that each of its pages holds, zeros around them, write access to the data only, and the reported bounds. |
| ElfLoader.OverlapMeans | src/kernel/elf.c:278-302 | The interval comparison finds exactly the segments that have a page in common. |
| ElfLoader.OverlapsEarlier | src/kernel/elf.c:278-302 | The inner loop reports an overlap exactly if some earlier segment has a page in common. |
| ElfLoader.LoadPage | src/kernel/elf.c:310-428 | One page is loaded on a frame of its own, with the segment's rights, the file's bytes and zeros elsewhere, exactly if it can be paid for, and costs exactly that; or nothing is held afterwards. |
| ElfLoader.ProgressPage | src/kernel/elf.c:310-428 | One more page keeps every page loaded before. |
| ElfLoader.PagesFromHolds | src/kernel/elf.c:310-428 | The loops go through exactly the pages that some segment covers. |
| ElfLoader.Load | src/kernel/elf.c:225-450 | Succeeds if and only if the image is valid, no two segments share a page and the frames suffice for its pages and their tables, and takes exactly those; then every page of every segment holds the right bytes with the right access and no other page has changed. Otherwise everything taken belongs to the space. |
| Budgets.PayTakes | src/kernel/elf.c:310-428 | Loading pages takes one frame for each and one for each table that is new, and needs no table of the kernel in the way. |
| Budgets.EnoughLow | src/kernel/paging.c:95-148 | That many free frames below 32 MiB are enough. |
| NewSpace.AccessibleIsProgram | src/kernel/elf.c:225-450 | In a fresh space ring 3 reaches exactly the pages of the segments and the stack page. |
| NewSpace.GraftStep | src/kernel/task.c:131-213 | Every step of building a space leaves all other owners, bytes and translations alone. |
| NewSpace.GraftDestroyed | src/kernel/task.c:139-226 | Destroying a half-built space restores the frame owners and the address-space table exactly, but for a frame that was lost. |
| NewSpace.FinishedPages | src/kernel/task.c:137-151 | In a fresh space the loader maps a page if and only if some segment covers it. |
| Tasks.TaskManager.Schedule | src/kernel/task.c:287-294 | Scheduling keeps the invariants of the tables, the heap and the address spaces together. |
| NewSpace.StackImageAccepted | src/kernel/task.c:153-213 | A concrete executable that covers the stack page 0x7FFFF000 passes validation and the overlap check. |
| Tasks.FrameFits | src/kernel/task.c:246-276 | The initial frame lies inside the kernel stack. |
| SpaceBuilding.BuildSpace | src/kernel/task.c:131-213 | Builds an address space with the image and a cleared stack page, or changes nothing; says from the state before exactly when it succeeds and how many frames are left. A frame is lost exactly if the image covers the stack page. |
| SpaceBuilding.BuildTakes | src/kernel/task.c:131-213 | A new program takes a frame for its directory, one for each page of its segments, one for the stack page and one for each table. |
| SpaceBuilding.EnoughToBuild | src/kernel/task.c:131-213 | That many free frames below 32 MiB are enough, unless a table of the kernel lies in the user range. |
| Tasks.TaskManager.CreateUserElf | src/kernel/task.c:120-285 | Succeeds if and only if a slot, frames for the program, a process, a thread and a kernel stack are there. A failing call leaves tables, heap, owners, bitmap bytes and active directory as they were if and only if the image does not cover the stack page or the address space could not be built; otherwise exactly one frame is lost. |
| LostFrame.StackImageLosesFrame | src/kernel/task.c:153-213 | An executable over the stack page is such an input whenever there is room for its address space but none for its process, its thread or its kernel stack. |
| LostFrame.LoseFrame | src/kernel/task.c:120-226 | The call with that image: everything is as before, but one free frame is gone for good. |
| LostFrame.FillUp | src/kernel/task.c:47-118 | Creating kernel tasks ends without room for one more, while the task count is still below its limit and only the heap has grown. |
| LostFrame.LoseFromStart | src/kernel/task.c:120-226 | From every memory map with 1029 free low frames besides those for the framebuffer, a run of task creations after start-up ends in a failing call that loses a frame. |
| Tasks.TaskManager.Create | src/kernel/task.c:47-118 | Adds a kernel process with one READY thread for the given entry and argument, its stack pointer 13 words below the end of its stack (the last multiple of 16), or changes nothing at all, bitmap bytes and frame count included; says exactly when. |
| Tasks.TaskIsCreation | src/kernel/task.c:47-285 | For the scheduler a successful creation is one event: a READY thread with a new stack in the first unused slot. |
| Tasks.TaskManager.Initialize | src/kernel/task.c:28-45 | Start-up establishes the invariants of the tables. |
| Processes.ReleaseUndoesClaim | src/kernel/process/process.c:54-93 | Destroying a process that was just created restores the process table. |
| Processes.Claimed | src/kernel/process/process.c:34-72 | The new process is READY in its slot with its address space; no other slot changes. |
| Processes.ClaimKeepsOwned | src/kernel/process/process.c:54-72 | Every address space in use belongs to exactly one process. |
| Processes.ProcessTable.Destroy | src/kernel/process/process.c:80-93 | Blanks the slot and destroys a private address space; process 0 is left alone. |
| Threads.ThreadTable.Create | src/kernel/process/thread.c:36-69 | Fills the first unused slot behind slot 0 with a READY thread that has the given process, entry and argument and a stack of its own, or changes nothing; fails exactly without process, slot or stack. |
| Scheduling.NextReady | src/kernel/scheduler/scheduler.c:45-60 | The ring scan finds the READY slot nearest behind the current one. |
| Scheduling.RunKeepsOk | src/kernel/scheduler/scheduler.c:29-119 | After any sequence of calls only the current thread may be RUNNING, stacks are private and unused slots own none. |
| Scheduling.TickRunsOne | src/kernel/scheduler/scheduler.c:29-97 | After every call of the scheduler exactly one thread is RUNNING, the current one. |
| Scheduling.TickDoes | src/kernel/scheduler/scheduler.c:29-97 | What a call does to every field of every thread: the nearest one that can run is selected; the one that is left is READY if it was RUNNING, gives up its slot if it was TERMINATED, and otherwise keeps its state. |
| Scheduling.NamedOnly | src/kernel/scheduler/scheduler.c:106-119 | Blocking, waking and terminating change the state of the named thread and nothing else; only a BLOCKED one is woken. |
| Scheduling.BlockedStays | src/kernel/scheduler/scheduler.c:29-119 | Over every run in which some thread can run at each call, a BLOCKED thread that nobody wakes or terminates stays BLOCKED and is never selected. |
| Scheduling.WakesExactly | src/kernel/scheduler/scheduler.c:62-66 | In any other run it stops being BLOCKED if and only if the scheduler is called while it is current and no thread can run. |
| Scheduling.ResumesRunnable | src/kernel/scheduler/scheduler.c:62-66 | The scheduler resumes a thread that may run if and only if there is one; otherwise it goes on with the current thread even if that is BLOCKED or TERMINATED. |
| Scheduling.BlockedRunsOn | src/kernel/scheduler/scheduler.c:62-66 | From the machine after start-up, blocking the only thread and one tick end with that thread RUNNING. |
| Scheduling.ExitIsTwoEvents | src/kernel/task.c:305-327 | SYS_EXIT is a run of two events: the thread that the thread table calls current is terminated, then the scheduler is called. |
| Scheduling.ExitExact | src/kernel/task.c:305-327 | The caller of SYS_EXIT can never be selected again if and only if it is the thread that the thread table calls current and another one is READY. |
| Scheduling.ExitRunsOn | src/kernel/syscall.c:57-70 | From the machine after start-up, SYS_EXIT by the first thread that is created terminates thread 0, and the caller is RUNNING afterwards. |
| Calls.ExitSyscall | src/kernel/task.c:305-327 | Terminates the thread that the thread table calls current, with its process, and calls the scheduler; the invariant of the whole machine is kept. |
| Calls.Block | src/kernel/scheduler/scheduler.c:106-110 | Blocking a thread is one event and keeps the invariant of the whole machine. |
| Calls.Unblock | src/kernel/scheduler/scheduler.c:112-119 | So is waking a blocked one. |
| Calls.Terminate | src/kernel/process/thread.c:71-75 | So is terminating one. |
| Scheduling.BoundedWaiting | src/kernel/scheduler/scheduler.c:45-72 | A READY thread that nobody blocks or terminates is selected within 16 calls, whatever happens to the others, and no other thread is selected twice before it. |
| Scheduling.ResumesSavedContext | src/kernel/scheduler/scheduler.c:39-96 | Over every run the returned context is the one with which the selected thread was interrupted last, or its initial frame. |
| Scheduling.StackConservation | src/kernel/scheduler/scheduler.c:83-94 | Over every run each stack is freed as often as it came in, or is still owned by exactly one thread. |
| Scheduling.FreesOnlyTheDead | src/kernel/scheduler/scheduler.c:83-94 | A stack is freed only for a TERMINATED thread that is switched away from, never for the selected one. |
| Scheduling.ReclaimedExactly | src/kernel/scheduler/scheduler.c:83-94 | Over every run that does not name it a TERMINATED thread's slot is given back if and only if it is the current thread and the next call of the scheduler finds another one READY. |
| Scheduling.TerminatedStep | src/kernel/scheduler/scheduler.c:83-94 | At that call its stack is the one that is freed; at no other event does it lose its stack. |
| Scheduling.ZombieStays | src/kernel/scheduler/scheduler.c:83-94 | A thread that is terminated while another one is current keeps its slot and stack as long as no event names it. |
| Scheduling.ZombieFromStart | src/kernel/scheduler/scheduler.c:83-119 | From the machine after start-up, a thread that is created and terminated while the first one runs keeps its slot and stack in every such run. |
| Scheduler.KernelScheduler.FindNext | src/kernel/scheduler/scheduler.c:45-60 | The loop over the ring returns the slot that the scan function names. |
| Scheduler.KernelScheduler.Schedule | src/kernel/scheduler/scheduler.c:29-97 | The code does what the step machine says; afterwards the active directory is that of the selected thread's process and a freed stack is the only allocation gone. |
| Scheduler.LoadedCases | src/kernel/scheduler/scheduler.c:75-81 | Whose directory becomes active: none without a process or an address space, the kernel's for a kernel process, its own for another. |
| Scheduler.FreeAllocation | src/kernel/scheduler/scheduler.c:87-91 | A live kernel stack is a block of the heap's list, so kfree takes exactly this allocation away. |
| Scheduler.LiveIndex | src/kernel/scheduler/scheduler.c:83-94 | A live kernel stack is a block of the heap's list, so kfree accepts it. |
| Keyboard.StepPending | src/kernel/keyboard.c:94-129 | A push appends its character, or drops it exactly if 127 wait; the reader removes only the oldest character, when it moves on. |
| Keyboard.Dropped | src/kernel/keyboard.c:94-107 | Exactly 127 characters fit, and a pushed one is dropped if and only if so many wait. |
| Keyboard.FirstInFirstOut | src/kernel/keyboard.c:94-129 | Under every interleaving of pushes with the reader's steps nothing is lost, duplicated, overwritten or reordered, and at most 127 characters wait. |
| Keyboard.DeliveredIsPrefix | src/kernel/keyboard.c:94-129 | From an empty ring the delivered characters are always a prefix of the accepted ones. |
| Keyboard.GetcharInterrupted | src/kernel/keyboard.c:114-129 | With pushes between its steps a read still returns the oldest waiting character and removes exactly that one. |
| Keyboard.KeyboardBuffer.Push | src/kernel/keyboard.c:94-107 | The push in place refines the push step. |
| Keyboard.KeyboardBuffer.Getchar | src/kernel/keyboard.c:114-129 | The read in place returns and removes the oldest character, or returns 0 on an empty ring. |

## Left out
- Paging.AddressSpaces.MapUserPage: the frame must be held by the caller and the space must be null or a slot of the table; the code takes any physical address and would also take the kernel's own space, but its callers never pass one.
- Paging.AddressSpaces.CopyToPhysical: the range must not wrap around 4 GiB, nor touch the window's own table or the directory in use, through which the copy itself runs; it keeps the invariant for ranges that touch no live directory or table. Null sources are not modelled.
- Paging.AddressSpaces.CopyFromPhysical: the range must not wrap around 4 GiB nor touch the window's own table; null destinations are not modelled.
- Paging.AddressSpaces.CopyThenReadBack: the conditions of both copies.
- Paging.AddressSpaces.Initialize: the physical places of the static tables are assumed to be distinct, page aligned, reserved and below 32 MiB, as the linker script lays the image out (Boot.Linked states it for the image at 1 MiB); enabling paging in CR0 is hardware.
- Paging.AddressSpaces.DestroyAddressSpace: ownership is the intended set (OwnedWords.TeardownExact says what the words as declared make of it); a pointer to the kernel's own space is a value of its own instead of an address that is compared.
- Heap.KernelHeap.Kmalloc: headers are a map from addresses to records, not bytes in memory, so the header that a wrapping request stores outside the committed pages overwrites nothing here.
- Heap.KernelHeap.MallocThenFree: a request whose end wraps is excluded, since the heap is out of order after it.
- Heap.KernelHeap.Kfree: the pointer is null or the payload of a block of the list; the code does not check.
- Pmm.FrameAllocator.ParseMemoryMap: the structure must be well formed in the sense of section 3.6 of the Multiboot2 specification, since the code reads it without checks.
- Processes.ProcessTable.Destroy: the argument is a slot of the table or null.
- Tasks.TaskManager.CreateUserElf: the address-space table is compared with ownership as the intended set (OwnedWords.LateFailureExact says what a late failure leaves in the words). An image given by a null pointer is the empty image; the contents of the kernel stack are not modelled, only the initial stack pointer.
- Boot.Start: the framebuffer tag must hold its fields and ask for at most 512 MiB (Framebuffer.IdentityExact says what a larger one does); consoles, interrupt controllers, GDT, IDT and timer are set up in between and touch none of this state.
- Ownership.OneFramePerRole: it is about the roles of frames; that the bits of `owned_page_tables` say the same is the subject of OwnedWords.
- The methods of Paging keep ownership as the intended set and edit tables by their frames; OwnedWords and KernelReach are about the words and the addresses that the code uses, and say when the two are the same.
- The address-space table, the heap headers and physical memory are sequences and maps in fields that the methods reassign, not arrays, so aliasing between them is not modelled.
- CR0, CR3, `invlpg` and the TLB: the active directory is the variable `current`, and translations are read from memory.
- Inline assembly, port I/O, interrupt controllers, timer, TSS, GDT and IDT setup.
- `scheduler_add_thread` and `scheduler_remove_thread`: nobody calls them, and they break the invariants of stacks and saved contexts.
- `current_thread` and `current_process` never change after start-up; SYS_GETPID and the console, which read them, are not modelled.
- Reclaiming the address space of a terminated process, which the code never does.
- Timer interrupts during task creation: tasks are created before interrupts are enabled, so a creation is one event.
- Contents of saved register frames: only the round trip of the context pointers is proved.
- Scancode tables, shift state, drawing on the framebuffer, the console, fonts and number printing.

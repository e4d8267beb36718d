# OYES memory management, verified

OYES is a 32-bit teaching kernel. This project models its memory management from the bottom
up, with the arithmetic under it and two small drivers beside it.

- **Arithmetic** (`Utilities.dfy`): shift-and-subtract division and the rounding helpers, on
  32-bit words that wrap.
- **Physical frames**: `FrameSpec.dfy` is the allocator on values, a bitmap scanned as a ring
  and a stack that caches frames taken from it. `FrameTheorems.dfy` proves what it promises
  over every run. `PageFrameAlloc.dfy` is the class with the bitmap words, the stack array and
  the static result array, proved to do what the values do; `Bits.dfy` is its bit arithmetic.
- **Page tables**: `PagingSpec.dfy` says what mapping a page does to a directory and its
  tables, and `PagingTheorems.dfy` what follows for searches and shared tables. `Paging.dfy`
  is the class that does it as the kernel must: every table but the kernel's own is reached
  through one temporary page, whose own entry lies in a page table. `Entries.dfy` ties entries
  with two fields to the macros on raw words.
  `SharedTables.dfy` is about sequences of mapping calls: what a process directory sees of
  them, and that a search finds no page twice.
- **Heap**: `HeapSpec.dfy` is the heap as its blocks and its free list, `HeapTheorems.dfy`
  what `malloc` and `free` promise over every run. `Malloc.dfy` is the circular linked list in
  memory, walked and relinked in place, proved to do what the values do. `HeapGrowth.dfy` is
  the mapping half of `get_more_memory`, on the frame allocator and the page tables above, and
  `FrameSupply.dfy` says when those can serve it. `Kmain.dfy` sets it all up as the kernel does.
- **Printing and keyboard** (`Stdio.dfy`, `Keyboard.dfy`): the digits of a number, and two
  chained ring buffers.

`dafny verify dfyconfig.toml` checks all of it.

## How the model is set up

Heap pointers are byte addresses divided by 8, the size of a header. `Heap.grants` counts the
growths that can still be served; the class holds it equal to the room left below the sentinel
`base`, and `Malloc` reports as a ghost result how many growths took place. Whether the frame
allocator serves a growth is no assumption: it is a function of its state and of the directory
entries that have tables, which the code is proved to follow. A block is `Live` when it is off
the free list. The number of bitmap words is a parameter, up to that of the source. Physical
memory is 2^20 tables of 1024 entries, an entry a 20-bit frame number and 12 flag bits. The TLB
is one variable, the frame that it holds for the temporary page, which follows the page's entry
at each flush. The C functions `malloc`, `free`, `map_page`, `bitmap_get_unallocated_pages` and
`printf_number` are each split into a few methods along their loops and branches.

## Where the code falls short of what it is for

Each of these is a lemma that says for all inputs when the code does meet its purpose.

- `malloc` returns less than was asked for exactly when the size exceeds 2^32 - 8
  (`PayloadCovers`).
- `freep == 0` means "not initialised", but in a heap at address 0, which is where the source
  starts it, a pointer on the list can be 0 (`RoverNull`, `FreeLeavesRoverNull`,
  `MallocLeavesRoverNull`). The next request then starts a new list and loses every free unit
  (`MallocConserves`, `StepLoses`), as after the kernel's own first calls (`KernelFirstCalls`).
  A growth that leaves it 0 makes `malloc` fail though the heap has grown (`GrowsLeast`), as for
  every first request above 8184 bytes, short of those whose size wraps (`LargeFirstRequest`).
- A request for frames can fail with frames left, and then loses what it popped
  (`AllocateSucceeds`, `LastFrameRefused`, `FreeThenAllocate`).
- With all 2^20 frames some frame has address 0, which also means failure (`FrameAtZero`,
  `FullBitmapHasFrameAtZero`): a request that pops it succeeds with a stale slot (`StaleSlot`).
  The late frames are those below the start, the kernel's own (`FullBitmapReachesKernel`).
- Mapping into a present table makes page 0 of that table present too, and gives the USER
  attribute to page 0 instead of the page mapped (`MapChangesOnlyItsPage`, `MapForUser`). So
  user code reaches few of the heap's pages, though all are mapped for it (`TwoTurnsForUser`).
- `create_pdt` reports the address of a page table instead of the directory's when the
  mapping needed a new table (`CreatePdt`).
- `create_pdt` does not clear the new directory (`CreatePdt` says that its frame keeps what it
  held). Entries left in it translate, and one that leads to the directory itself shows the
  copied entries as pages (`LoadTranslates`).
- A table that the kernel adds after a process directory was loaded is not seen by the process,
  unless such a left-over entry leads to it (`SeenByProcess`, `NewTableNotSeen`).
- The search for free kernel pages answers an absent table whatever follows it: a longer range
  can run into mapped pages of the next tables or past the top of memory, and one in an absent
  first table can hold the temporary page (`AnswerIsFree`, `CollidingAnswer`).
- The heap may grow over the kernel's own pages, which then lose their frames
  (`GrowthHitsKernel`).
- 64-bit numbers are printed by their low 32 bits (`ShownReadsBack`).
- `div_ceil` of 0 and `align_up` near 2^32 wrap (`DivCeilIsCeiling`, `AlignUpLeast`).

## Model

| member | source | states |
|---|---|---|
| HeapTheorems.BlocksTile | src/memory/heap/malloc.c:25-113 | every unit between start and end of the heap is in exactly one block and no block reaches outside, so no unit is lost or counted twice |
| HeapTheorems.ReachableTiled | src/memory/heap/malloc.c:25-113 | after any run of requests and frees from the empty heap at any start, a unit of the heap is free exactly when no block off the list covers it; above address 0 the blocks off the list are exactly those the program holds |
| HeapTheorems.RunKeeps | src/memory/heap/malloc.c:25-113 | any run, new lists on a null freep included, keeps the heap invariant and every held block it does not free, with its size |
| HeapTheorems.RunLosesNothing | src/memory/heap/malloc.c:25-113 | in a heap above address 0 no run ever takes a block off the list that the program does not hold |
| HeapTheorems.StepLoses | src/memory/heap/malloc.c:29-33 | an operation loses blocks exactly when it is a request while freep stands on a free block at address 0 |
| HeapTheorems.MallocConserves | src/memory/heap/malloc.c:25-86 | malloc conserves units exactly in the same case: free and new units before are the free units after and those handed out |
| HeapTheorems.NullRoverLoses | src/memory/heap/malloc.c:29-33 | on a null freep every unit that was free is neither free nor handed out afterwards |
| HeapTheorems.KernelFirstCalls | src/kernel/kmain.c:68-81 | the kernel's own malloc and free on the heap at address 0: the payload is at unit 512, and the free leaves one free block, a null freep, and failure of every request that is granted no growth |
| HeapTheorems.LargeFirstRequest | src/memory/heap/malloc.c:20-57 | on a fresh heap at address 0 a request that needs two growths fails whatever is granted |
| HeapTheorems.FreeListCanonical | src/memory/heap/malloc.c:98-111 | coalescing is complete: two valid heaps with the same free units have the same free list and sizes |
| HeapTheorems.EndNotFree | src/memory/heap/malloc.c:98-111 | no two free blocks abut |
| HeapTheorems.UniqueGap | src/memory/heap/malloc.c:94-97 | the list has exactly one descent, at the sentinel, and the exit tests of the search in free hold at exactly one position |
| HeapTheorems.GrowsLeast | src/memory/heap/malloc.c:37-86 | no growth when some block fits; otherwise the least number k of growths with tail block + 1024k >= units; success exactly when that many are granted and no growth on the way leaves freep null |
| HeapTheorems.ServedWithin | src/memory/heap/malloc.c:37-58 | the same as a decision: served exactly when the growths the request takes are granted and none spoils the list, and then exactly those take place |
| HeapTheorems.RequestIsGrowthsAndCarve | src/memory/heap/malloc.c:37-58 | a request in closed form: some growths and, if served, one carving by first fit in the heap they leave; a failed one changes nothing else, the rover included |
| HeapTheorems.GrowNull | src/memory/heap/malloc.c:84-85 | a growth returns a null freep, which malloc takes for failure, exactly when the block at 0 is the only free one |
| HeapTheorems.GrowTail | src/memory/heap/malloc.c:61-86 | one growth lengthens the block at the heap's end, or a new one, by 1024 units, and makes a fit exactly when that suffices |
| HeapTheorems.GrowShape | src/memory/heap/malloc.c:82-85 | a growth through free changes no other block of the free list |
| HeapTheorems.ServesFirst | src/memory/heap/malloc.c:35-52 | a request that fits is carved off the end of the first block after freep, around the ring, that is large enough |
| HeapTheorems.FirstFitNone | src/memory/heap/malloc.c:37-57 | one round of the ring finds nothing exactly when no free block is large enough |
| HeapTheorems.SearchResumes | src/memory/heap/malloc.c:42-50 | next fit: the next search starts at the rest of the block that served, or at its successor when nothing is left |
| HeapTheorems.SearchAfterFree | src/memory/heap/malloc.c:105-112 | after a free the next search starts at the freed block, or after the block that absorbed it |
| HeapTheorems.MallocUnitsLive | src/memory/heap/malloc.c:25-59 | a served request adds one live block of exactly the units asked for and leaves all other live blocks alone; a failed one changes none |
| HeapTheorems.MallocUnitsConserves | src/memory/heap/malloc.c:25-86 | conservation: free units before and new units of the growths are the free units after and the block handed out |
| HeapTheorems.MallocReturnsPayload | src/memory/heap/malloc.c:29-51 | the returned payload is of a new block of the size computed, inside the heap and apart from every other block off the list; only a null freep takes other blocks off it |
| HeapTheorems.PayloadCovers | src/memory/heap/malloc.c:36 | the payload has at least nbytes bytes exactly when nbytes <= 2^32 - 8, and then less than 8 more |
| HeapTheorems.PayloadCanFallShort | src/memory/heap/malloc.c:36 | exactly the last 7 sizes, where the sum wraps, get one unit, a header without payload |
| HeapTheorems.FreeUndoesMalloc | src/memory/heap/malloc.c:25-113 | freeing what a request returned gives back every unit, those of its growths included |
| HeapTheorems.FreeRestoresList | src/memory/heap/malloc.c:25-113 | without growth it restores the free list and all sizes |
| HeapTheorems.AllFreed | src/memory/heap/malloc.c:88-113 | when no block is live the whole heap is one free block |
| HeapTheorems.RoverNull | src/memory/heap/malloc.c:18-33 | freep is null in a running heap exactly when the heap starts at 0 and freep stands on its first block |
| HeapTheorems.FreeLeavesRoverNull | src/memory/heap/malloc.c:88-113 | a free leaves freep null exactly when only a free block at address 0 lies below the freed one |
| HeapTheorems.MallocLeavesRoverNull | src/memory/heap/malloc.c:50 | a served request leaves freep null exactly when the block after the free block at 0 serves it |
| HeapTheorems.AwakeValid | src/memory/heap/malloc.c:29-33 | starting a new list drops the free blocks and changes nothing else; it happens exactly on a null freep |
| HeapTheorems.MallocStepKeeps | src/memory/heap/malloc.c:25-59 | a call of malloc, with its test for a null freep, keeps the heap valid and every block off the list with its size, however many growths are granted |
| HeapTheorems.StepKeeps | src/memory/heap/malloc.c:25-113 | each operation keeps every block the program holds, but the one freed, with its size |
| HeapSpec.FreeBlockValid | src/memory/heap/malloc.c:88-113 | free keeps tiling, order and complete coalescing in all four merge cases |
| HeapSpec.FreeBlockUnits | src/memory/heap/malloc.c:88-113 | the free units after a free are those before and the freed block's, whatever merges |
| HeapSpec.FreeBlockLive | src/memory/heap/malloc.c:88-113 | free ends the life of its block and of no other, and resizes no live block |
| HeapSpec.CarveValid | src/memory/heap/malloc.c:39-51 | carving or unlinking keeps the invariant and the piece handed out is new and live |
| HeapSpec.CarveUnits | src/memory/heap/malloc.c:39-51 | it takes exactly the units handed out from the free ones |
| HeapSpec.GrowValid | src/memory/heap/malloc.c:61-86 | a growth keeps the invariant and uses up one grant |
| Malloc.Allocator.Malloc | src/memory/heap/malloc.c:25-59 | on the linked list in memory: the new heap and result are those of the block model; the call succeeds exactly when the least growths it takes fit below the sentinel, are served by the frame allocator and spoil no list, and then takes exactly those; no word of a live block and no word of the frame of a heap page is written; a failed call too has its growths and the frames it drew fixed; 0 bytes change nothing |
| Malloc.Allocator.Walk | src/memory/heap/malloc.c:35-58 | the loop, with growth in the middle of its walk, terminates and serves as the block model does; it gives up only on a full address range, a refused growth or a null freep |
| Malloc.Allocator.Take | src/memory/heap/malloc.c:39-51 | the in-place carving of one block, its links and sizes |
| Malloc.Allocator.GetMoreMemory | src/memory/heap/malloc.c:61-86 | one growth of the block model exactly when there is room and the frame allocator serves its frames and tables, otherwise no change; the frames drawn are exactly those of the supply model; the pages get those frames in order and are mapped for the user |
| Malloc.Allocator.MapPages | src/memory/heap/malloc.c:65-81 | succeeds exactly when the supply does; the pages join the backed ones, and no heap page loses its frame or that frame its contents; its frames are those of the next allocation, in order, and its pages are mapped for the user |
| Malloc.Allocator.Free | src/memory/heap/malloc.c:88-113 | the two stores on the list give the heap of the block model; no word of a live block is written; NULL changes nothing |
| Malloc.Allocator.Search | src/memory/heap/malloc.c:94-97 | from any freep the search ends, at the predecessor of the one gap for bp |
| Malloc.Allocator.LinkIn | src/memory/heap/malloc.c:98-111 | the four cases of relinking write two headers and nothing else |
| Malloc.Allocator.LiveIsBacked | src/memory/heap/malloc.c:65-81 | every unit of a live block lies in a mapped writable page on a frame of its own, which is no table and cannot be handed out again |
| Malloc.Allocator.constructor | src/memory/heap/malloc.c:18-21 | the static state before the first call stands for the empty heap |
| Malloc.StoresFree | src/memory/heap/malloc.c:98-111 | after the two stores every ring link and every size is right for the freed heap |
| Malloc.FreeUntouched | src/memory/heap/malloc.c:98-111 | the headers that free writes are in no live block |
| Malloc.CarveLinked | src/memory/heap/malloc.c:42-49 | after the stores of malloc every ring link and size is right for the carved heap |
| Malloc.CarveUntouched | src/memory/heap/malloc.c:42-49 | the headers that malloc writes are in no live block |
| Malloc.ProgramWriteKeeps | src/memory/heap/malloc.c:51 | a program may write any value to any unit of a live payload without breaking the list |
| Malloc.StartsList | src/memory/heap/malloc.c:29-33 | on a null freep the one store to the sentinel makes a proper list of it alone, whether there was a list before or not |
| Malloc.WalkDecides | src/memory/heap/malloc.c:37-58 | how the walk ended settles whether the request could have been served at all |
| Malloc.StackSuffices | src/memory/heap/malloc.c:61-86 | two stacked frames for each growth taken, one for each directory entry the pages span and one to spare serve a request, unless the list is spoiled |
| Malloc.NeverSpoiled | src/memory/heap/malloc.c:20 | in a heap above address 0 the list is never spoiled and freep never null on it |
| FrameSupply.StackServes | src/memory/heap/malloc.c:65-81 | so many stacked frames serve k growths in a row, by pops alone: bitmap and ring position stay as they are |
| FrameSupply.MapTurn | src/memory/virtual/paging.c:155-205 | kernel_map_page draws on frames and directory entries as the supply model says |
| FrameSupply.FewerServed | src/memory/heap/malloc.c:65-81 | more growths are served only if fewer are |
| Kmain.Prepare | src/kernel/kmain.c:63-64 | from the loader's tables and the kernel's end: a valid allocator with an empty heap at 0 over all three layers |
| Kmain.FirstCalls | src/kernel/kmain.c:68-81 | on that system the first malloc is served, and after its free freep is null and the heap one free block |
| FrameSpec.RefillTakesFirst | src/memory/physical/page_frame_alloc.c:95-129 | a refill takes exactly the first min(1024, free) clear bits in ring order from the last index, and only clear ones |
| FrameSpec.RefillCount | src/memory/physical/page_frame_alloc.c:95-129 | its result is min(1024, number of clear bits) |
| FrameSpec.RefillValid | src/memory/physical/page_frame_alloc.c:95-129 | after it the stack agrees with the bitmap, without repeats, and is empty only if no bit is clear |
| FrameSpec.RefillRing | src/memory/physical/page_frame_alloc.c:95-129 | a refill in full: the first min(1024, free) clear frames in ring order from the last index, stacked in that order, with just their bits set; a full one leaves the index at the word of the frame stacked last, a short one where it was |
| FrameSpec.NextFit | src/memory/physical/page_frame_alloc.c:98-116 | next fit: whatever is freed between a full refill and the next, a clear frame in a word left behind is taken only after every clear frame from the word where the first stopped on |
| FrameSpec.RefillsGoAround | src/memory/physical/page_frame_alloc.c:95-129 | with nothing freed in between, the second of two full refills takes frames after those of the first, in ring order from where the first started, none from a word left behind |
| FrameSpec.AllocateTakes | src/memory/physical/page_frame_alloc.c:159-178 | a call keeps the invariant, takes exactly the frames it popped from the available ones, and their bits stay set |
| FrameSpec.AllocateDistinct | src/memory/physical/page_frame_alloc.c:162-177 | the frames one call pops are pairwise distinct, across the refill too |
| FrameTheorems.AllocateSucceeds | src/memory/physical/page_frame_alloc.c:162-177 | the exact success condition for s stacked frames, f clear bits: n < s, or s >= 1 and min(1024, f) + s >= 1026; at most one refill |
| FrameTheorems.AllocateOrder | src/memory/physical/page_frame_alloc.c:162-177 | the whole outcome in closed form: the stack from the top down, then the refilled stack from the top down; what is left, and that a failed call drops the old stack and keeps the refilled one |
| FrameTheorems.FirstRequest | src/memory/physical/page_frame_alloc.c:85-86 | the j-th frame of a first request for less than 1024 is frame 1023 - j |
| FrameTheorems.LastFrameRefused | src/memory/physical/page_frame_alloc.c:168-175 | with one stacked frame a request for one always fails and drops that frame |
| FrameTheorems.SuccessIsFresh | src/memory/physical/page_frame_alloc.c:159-178 | a success returns n distinct frames popped in this call, none held or lost before |
| FrameTheorems.FreeThenAllocate | src/memory/physical/page_frame_alloc.c:135-178 | a freed frame is the next one popped; the pair of calls restores the state exactly when the stack was not empty, and else fails |
| FrameTheorems.ReleaseGives | src/memory/physical/page_frame_alloc.c:135-152 | freeing a frame makes that one available and no other: it goes on top of the stack, or with a full stack its bit alone is cleared and the stack stays |
| FrameTheorems.StepAccounted | src/memory/physical/page_frame_alloc.c:135-178 | each operation keeps the four-way account of every frame |
| FrameTheorems.RunAccounted | src/memory/physical/page_frame_alloc.c:69-178 | so does every run |
| FrameTheorems.ReachableOwnedOnce | src/memory/physical/page_frame_alloc.c:69-178 | in every state reached from init each frame is in exactly one place: clear bit, one stack slot, a caller, lost |
| FrameTheorems.AddressRoundTrip | src/memory/physical/page_frame_alloc.c:108 | frame number to address and back is the identity for all 2^20 frames and any start, modulo 2^32 |
| FrameTheorems.FrameAtZero | src/memory/physical/page_frame_alloc.c:22-24 | some frame has address 0 exactly when the frames reach past 2^32 |
| FrameTheorems.FullBitmapHasFrameAtZero | src/memory/physical/page_frame_alloc.c:17-24 | with 2^20 frames there always is one |
| FrameTheorems.SomeBelowStart | src/memory/physical/page_frame_alloc.c:108 | some managed frame lies below the start exactly when the frames reach past 2^32 |
| FrameTheorems.FrameBelowStart | src/memory/physical/page_frame_alloc.c:108 | frame by frame: exactly when its address wraps |
| FrameTheorems.FullBitmapReachesKernel | src/memory/physical/page_frame_alloc.c:17-18 | with 2^20 frames every page-aligned address is that of a managed frame, the kernel image included |
| FrameTheorems.StaleSlot | src/memory/physical/page_frame_alloc.c:165-167 | a slot names the frame popped for it, whatever it held, unless that is the one frame whose address wraps to 0, which leaves the slot stale |
| PageFrameAlloc.FrameAllocator.PageFrameAllocatorInit | src/memory/physical/page_frame_alloc.c:69-88 | of the arrays: slot j of the stack holds the address of frame j for all 1024, the first 32 words are ones and the others 0, the ring index is 31; all stacked frames lie above the kernel's end exactly when none of them wraps |
| PageFrameAlloc.FrameAllocator.BitmapGetUnallocatedPages | src/memory/physical/page_frame_alloc.c:95-129 | the nested scan over bitmap words is the refill, ends within a lap, and no push fails; what a refill is, the ring index included, is in FrameSpec.RefillRing |
| PageFrameAlloc.FrameAllocator.ScanWord | src/memory/physical/page_frame_alloc.c:103-117 | one word of the scan takes its clear bits in order, and stops at the 1024th |
| PageFrameAlloc.FrameAllocator.TakeIfClear | src/memory/physical/page_frame_alloc.c:105-111 | a clear bit is set, its address pushed; a set bit changes nothing |
| PageFrameAlloc.FrameAllocator.FreePageFrame | src/memory/physical/page_frame_alloc.c:135-152 | pushes the frame or clears its bit and no other, also where addresses wrap |
| PageFrameAlloc.FrameAllocator.PfAllocateFrames | src/memory/physical/page_frame_alloc.c:159-178 | null exactly on failure; otherwise slots 0..n hold the addresses popped in this call, but for a frame at address 0, whose slot keeps its old value; the later slots are untouched |
| PageFrameAlloc.FrameAllocator.StackPush | src/memory/physical/page_frame_alloc.c:43-52 | pushes, or fails on a full stack without change |
| PageFrameAlloc.FrameAllocator.StackTpop | src/memory/physical/page_frame_alloc.c:56-64 | pops the last frame pushed, or reports failure on an empty stack |
| Bits.SetBit | src/memory/physical/page_frame_alloc.c:107 | or with a shifted 1 sets that bit of the word and changes no other |
| Bits.ClearBit | src/memory/physical/page_frame_alloc.c:148-149 | and with the inverted mask clears that bit and changes no other |
| Bits.MaskValues | src/memory/physical/page_frame_alloc.c:105-107 | bit 0 is the lowest of a word and each next one twice as high |
| Entries.FieldsDetermine | include/memory/virtual/paging.h:6 | frame field and flag field determine the raw entry |
| Entries.DecodeInjective | include/memory/virtual/paging.h:6-10 | words and model entries correspond one to one |
| Entries.DecodeSetAttr | include/memory/virtual/paging.h:7 | SET_ATTR on the word is the model's on its entry |
| Entries.DecodeCheckAttr | include/memory/virtual/paging.h:9 | likewise CHECK_ATTR |
| Entries.DecodeSetFrame | include/memory/virtual/paging.h:10 | likewise SET_FRAME with an aligned address |
| Entries.DecodePhysAddress | include/memory/virtual/paging.h:6-10 | GET_PAGE_PHYS_ADDRESS gives back the address that SET_FRAME took |
| Entries.RawAttrActsOnFlags | include/memory/virtual/paging.h:7 | SET_ATTR acts on the flag field only |
| Entries.RawCheckSeesFlags | include/memory/virtual/paging.h:9 | CHECK_ATTR depends on the flag field only |
| Entries.RawFrameActsOnFrame | include/memory/virtual/paging.h:10 | SET_FRAME with an aligned address replaces the frame field only |
| Entries.RawFrameKeepsFlagsIff | include/memory/virtual/paging.h:10 | it keeps the flags exactly when the low address bits are flags already set |
| Entries.RawPhysIsFrame | include/memory/virtual/paging.h:6 | GET_PAGE_PHYS_ADDRESS is the frame field with no flags |
| PagingSpec.IndicesSplit | include/memory/virtual/paging.h:4-12 | an address is its directory index, its table index and its offset, high to low |
| Entries.Attributes | include/memory/virtual/paging.h:7-9 | setting an attribute keeps the frame, and presence unless it sets PRESENT |
| PagingSpec.MapWalks | src/memory/virtual/paging.c:160-205 | after map_page the walk of va yields pa |
| PagingSpec.MapWalksOther | src/memory/virtual/paging.c:160-205 | what every other page translates to afterwards, page 0 of the table included |
| PagingSpec.MapKeepsMapped | src/memory/virtual/paging.c:160-205 | no page mapped before loses or changes its frame |
| PagingSpec.MapChangesOnlyItsPage | src/memory/virtual/paging.c:187-204 | no other page changes exactly when the table is new, its page 0 was present, or page 0 is being mapped |
| PagingSpec.MapEntries | src/memory/virtual/paging.c:160-205 | frame condition: frame and presence of every entry of every frame, equality for all but three, and the other entries of a new table are zero |
| PagingSpec.MapFlags | src/memory/virtual/paging.c:173-199 | the exact flags of those three: the directory entry, the page's entry, and entry 0 of the table, which gets USER in place of the page's |
| PagingSpec.MapContents | src/memory/virtual/paging.c:160-205 | frames other than the directory and the one table keep their contents |
| PagingSpec.MapWellFormed | src/memory/virtual/paging.c:160-205 | no two directory entries come to share a table, and none leads to the directory |
| PagingSpec.MapForUser | src/memory/virtual/paging.c:187-203 | a page mapped for the user is reachable by the user exactly when its table is new, it is page 0, or its entry had USER |
| PagingTheorems.AnswerIsLowest | src/memory/virtual/paging.c:243-268 | for every size: the answer is the lowest range free under one table, or 0 for none, exactly when all kernel-half tables are there, or the pages fit one table and are not all of an absent first one |
| PagingTheorems.AnswerIsFree | src/memory/virtual/paging.c:249-266 | for every size: the pages answered, across tables, are all free exactly when the entry where the search ends has a table, or the pages from its start on stay in the address space, meet no mapped page and leave out the temporary one |
| PagingTheorems.AnswerStops | src/memory/virtual/paging.c:247-267 | the answer is 0 exactly when every kernel-half entry has a table without a run; otherwise it is in the first entry of which one of these fails |
| PagingTheorems.CollidingAnswer | src/memory/virtual/paging.c:258-261 | the failing input: an absent entry before a table whose first page is mapped, and 1025 pages |
| PagingTheorems.CollidingTables | src/memory/virtual/paging.c:258-261 | there are such tables |
| Paging.LoaderAnswers | src/kernel/loader.s:62-78 | at boot every answer is entry 769, and free up to the top of memory |
| SharedTables.SearchAfterCalls | src/memory/virtual/paging.c:155-268 | once the kernel has mapped a range found, by as many calls of kernel_map_page, every later search returns a disjoint range, after any further calls |
| SharedTables.RangeMapped | src/memory/virtual/paging.c:155-205 | those calls map each page of the range to its frame |
| PagingTheorems.LoadTranslates | src/memory/virtual/paging.c:282-295 | the process translates the kernel half as the kernel does wherever the kernel has a table, and everything else as before, but through a left-over entry that leads to the directory itself |
| PagingTheorems.LoadShares | src/memory/virtual/paging.c:287-292 | both directories lead to the same kernel tables |
| SharedTables.SharingLasts | src/memory/virtual/paging.c:155-295 | through any sequence of kernel_map_page calls, with the frames the allocator gives them, both directories go on translating alike at shared entries |
| SharedTables.KernelHalfShared | src/memory/virtual/paging.c:56-295 | a directory that create_pdt made and load_process_pdt loaded translates every kernel-half page whose table was there as the kernel does, then and after any later kernel mappings |
| SharedTables.SharedMappingSeen | src/memory/virtual/paging.c:155-205 | a later kernel mapping into a shared table is seen by the process |
| SharedTables.NewTableNotSeen | src/memory/virtual/paging.c:163-186 | one that needs a new table is not seen without an entry there, and is by a left-over entry that leads to that table |
| SharedTables.SeenByProcess | src/memory/virtual/paging.c:155-205 | exactly when a kernel mapping is seen by a process, whatever entries its directory was left with: its entry leads to the table edited, or leads elsewhere and had the page already |
| PagingTheorems.SeenThrough | src/memory/virtual/paging.c:160-205 | the same for one map_page and any process directory outside the kernel's tables |
| Paging.Mmu.MapPage | src/memory/virtual/paging.c:160-205 | through the window: the tables become those of the direct edit, or stay on failure; the window's entry is restored; only available frames become tables; of the result array only slot 0 may change |
| Paging.Mmu.MapIntoNewTable | src/memory/virtual/paging.c:163-186 | the new table takes the frame just allocated, which no directory entry used |
| Paging.Mmu.InstallTable | src/memory/virtual/paging.c:166-185 | the edits through the window equal the direct ones |
| Paging.Mmu.MapIntoTable | src/memory/virtual/paging.c:187-204 | likewise for a present table, which may be the kernel table that holds the window's entry |
| Paging.Mmu.KernelMapPage | src/memory/virtual/paging.c:155-158 | the same for the kernel directory |
| Paging.Mmu.TempMapPage | src/memory/virtual/paging.c:136-145 | the window shows the frame given; one entry of the kernel table changed, to that frame, with PRESENT, RW and WRITE_THROUGH added to its flags |
| Paging.Mmu.KernelSetTemporaryEntry | src/memory/virtual/paging.c:129-133 | the entry is stored and the window follows it |
| Paging.Mmu.ClearWindow | src/memory/virtual/paging.c:171 | the whole frame in the window is zeroed, nothing else |
| Paging.Mmu.GetPage | src/memory/virtual/paging.c:84-91 | the window shows the table of the address, and the index is that of its page |
| Paging.Mmu.PtKernelFindNextVaddr | src/memory/virtual/paging.c:217-241 | the least run of free pages in a table, or 0 exactly when there is none, for every size |
| Paging.Mmu.PdtKernelFindNextVaddr | src/memory/virtual/paging.c:243-268 | for every size the answer of the first kernel-half entry that has one; the lowest free range under one table, without the window, or 0 when there is none, for sizes to 4 MB; memory and window as before |
| Paging.Mmu.SearchTable | src/memory/virtual/paging.c:250-257 | the part of one present table, with the window restored |
| Paging.Mmu.LoadProcessPdt | src/memory/virtual/paging.c:282-295 | copies exactly the present kernel-half entries and switches directory |
| Paging.Mmu.CreatePdt | src/memory/virtual/paging.c:56-79 | succeeds exactly when a frame, a free kernel page and, if that page needs one, a frame for a table are there; the page was the lowest free one and maps a frame outside the kernel's tables that cannot be handed out again; the address reported is that frame's exactly when no new table was needed; one call of kernel_map_page is all that happens to the tables, no mapped page moves, and the new directory is not cleared |
| Paging.Mmu.constructor | src/memory/virtual/paging.c:297-330 | the initial directories and a window that agrees with its entry; with the loader's tables below the managed frames the kernel directory can be mapped into |
| Paging.LoaderUsable | src/kernel/loader.s:63-99 | the loader's tables are well formed and none of their frames can be handed out |
| HeapGrowth.MapHeapPages | src/memory/heap/malloc.c:65-81 | served exactly when the frames and tables there are allow; the pages are mapped writable on two distinct fresh frames, although the first mapping may overwrite slot 0 of the array still being read; frames in other use keep their contents; the first page gets the frame popped first; both directory entries get USER and RW, and which page user code then reaches is stated exactly |
| HeapGrowth.GrowthMovesNothing | src/memory/heap/malloc.c:69-81 | a growth moves no mapped page exactly when its own two were unmapped, or on these frames already |
| Kmain.GrowthHitsKernel | src/memory/heap/malloc.c:68-70 | a growth takes a kernel page off its frame exactly when it reaches into the addresses of the kernel's pages |
| HeapGrowth.MapHeapPage | src/memory/heap/malloc.c:71-81 | one turn of the loop maps its page writable and keeps all other mappings and attributes, and what becomes of USER everywhere, as for a mapping with is_user set |
| HeapGrowth.MakeWritable | src/memory/heap/malloc.c:76-80 | sets RW and PRESENT in the page's entry, through the window, and restores it |
| HeapGrowth.MapThenWritable | src/memory/heap/malloc.c:75-79 | mapping then setting attributes gives a writable page and costs no other page its frame or RW |
| HeapGrowth.MapUserAfter | src/memory/heap/malloc.c:75 | what mapping a page for the user does to USER in every entry of every table: in a new table the page alone gets it, in a present one page 0 |
| HeapGrowth.TwoTurnsForUser | src/memory/heap/malloc.c:71-81 | which of a growth's two pages user code reaches: each if its table is new, it is page 0 or had USER, but the second not by a table that the first brought |
| HeapGrowth.BackedGrows | src/memory/heap/malloc.c:65-81 | a growth adds two pages to those backed by distinct private frames |
| HeapGrowth.BackedStays | src/memory/heap/malloc.c:65-81 | and the earlier pages stay backed by theirs, with their contents |
| Utilities.DivideUnsigned | src/utility/utilities.c:3-32 | the quotient for every 32-bit dividend and divisor (0 for divisor 0), at most 31 doublings and halvings, 32 subtractions, each shift subtracted at most once |
| Utilities.SlowDivide | src/utility/utilities.c:51-60 | the same quotient by repeated subtraction |
| Utilities.DivCeilIsCeiling | src/utility/utilities.c:45-48 | div_ceil is the ceiling exactly when the dividend is positive or the divisor 1 |
| Utilities.ModuloIsRemainder | src/utility/utilities.c:62-65 | modulo is the remainder, its product never wraps |
| Utilities.AlignUpLeast | src/utility/utilities.c:67-75 | align_up is the least multiple no less than n exactly when 32 bits can hold it |
| Utilities.AlignDownGreatest | src/utility/utilities.c:77-80 | align_down is the greatest multiple no more than n |
| Stdio.PrintfNumber | src/stdlib/stdio.c:183-271 | for every length and sign, what is put out is the sign and the decimal numeral of the magnitude cut to 32 bits, the least signed number included, and the argument slots consumed |
| Stdio.ValueIsTwosComplement | src/stdlib/stdio.c:196-208 | the value shown is the two's complement one: the number of the signed or unsigned range that agrees with the argument modulo its width |
| Stdio.FillDigits | src/stdlib/stdio.c:250-257 | the digit loop leaves the numeral reversed in at most 10 places of the buffer |
| Stdio.ShownReadsBack | src/stdlib/stdio.c:190-270 | it reads back as the sign and the magnitude cut to 32 bits, so as the value exactly when the magnitude is below 2^32: for all 32-bit arguments; it fits the buffer and has no leading zero but "0" itself |
| Stdio.DecimalParses | src/stdlib/stdio.c:250-257 | parsing undoes the digits for every number, digits only |
| Keyboard.InterleavingConsistent | src/hardware/keyboard.c:112-187 | under any interleaving of key presses, reads and writes, delivered and waiting characters are the in-order translation of the consumed scancodes less those dropped on a full ring |
| Keyboard.DropsOnlyWhenFull | src/hardware/keyboard.c:162-169 | a character is dropped exactly when it found the second ring holding 1000 characters |
| Keyboard.EventEffect | src/hardware/keyboard.c:112-187 | a scancode is accepted exactly when its ring holds fewer than 1000, a read consumes and a write delivers the oldest waiting one if there is one |
| Keyboard.HandlerDropsNothing | src/hardware/keyboard.c:112-128 | under the interrupt handler alone nothing is dropped or left waiting |
| Keyboard.CapsIsParity | src/hardware/keyboard.c:203-208 | caps is on exactly after an odd number of caps presses |
| Keyboard.ShiftIsLastEvent | src/hardware/keyboard.c:199-208 | shift is on exactly when the last shift, release or caps event was a shift press |
| Keyboard.ConvertInvertible | src/hardware/keyboard.c:193-325 | no two keys give the same character, whatever the modifiers |
| Keyboard.CharacterKeys | src/hardware/keyboard.c:193-325 | which codes give characters: letter keys always a letter of the right case, digit keys a digit or symbol, the space key a space, no other code any |
| Keyboard.EveryCharacter | src/hardware/keyboard.c:209-319 | every letter, digit, symbol and the space is given by some key |
| Keyboard.DigitKeys | src/hardware/keyboard.c:15-24 | each digit key by the name that the source gives its code |
| Keyboard.TopRowKeys | src/hardware/keyboard.c:37-46 | likewise the letter keys from Q to P |
| Keyboard.HomeRowKeys | src/hardware/keyboard.c:27-35 | from A to L |
| Keyboard.BottomRowKeys | src/hardware/keyboard.c:48-66 | from Z to M, and the space key |
| Keyboard.ConvertCase | src/hardware/keyboard.c:209-316 | letters are capital exactly under shift or caps, digit keys give digits exactly without shift |
| Keyboard.RingBuffer.Add | src/hardware/keyboard.c:117-121 | stores at the tail of a FIFO, with tail = head + count modulo 1000 |
| Keyboard.RingBuffer.Remove | src/hardware/keyboard.c:157-161 | takes from its head |
| Keyboard.Driver.KeyboardRead | src/hardware/keyboard.c:152-172 | one scancode moves on as in the state model, or nothing happens |
| Keyboard.Driver.KeyboardWrite | src/hardware/keyboard.c:177-187 | one character leaves the second ring, if there is one |
| Keyboard.Driver.KeyboardInterruptHandler | src/hardware/keyboard.c:112-128 | enqueue, read and write, or nothing on a full ring |
| Keyboard.Driver.ConvertScancode | src/hardware/keyboard.c:193-325 | the switch over the scancodes, case by case, gives the character and modifiers of the table form that the lemmas above are about |
| Keyboard.Driver.constructor | src/hardware/keyboard.c:134-147 | both rings empty and no modifier on |

## Left out

- Malloc.Allocator.GetMoreMemory: a refused frame or mapping ends the growth with NULL, as malloc.c:55 expects; the source reads the null array and ignores the result of kernel_map_page. It also refuses to grow past the sentinel, which the source does not check.
- HeapGrowth.MapHeapPages: stops at a refused allocation or mapping, where the source goes on.
- Malloc.Allocator.constructor: the heap starts page-aligned and lies below the sentinel and the temporary page.
- Malloc.Allocator.Free: only for pointers to blocks that are off the list, and NULL; anything else the source does not detect.
- Malloc.Allocator.Malloc: the kernel directory is the current one; get_page reads CURRENT_PD while kernel_map_page edits the kernel's, so a growth under another directory is not covered.
- Malloc.Allocator.LiveIsBacked: the heap's own words are a sequence beside the physical memory of the page tables; that no growth writes the frames behind them is stated by KeepsBacking.
- PageFrameAlloc.FrameAllocator.FreePageFrame: only for frames that are neither stacked nor clear; a double free is not detected by the source.
- PageFrameAlloc.FrameAllocator.PfAllocateFrames: requests of at most 1024 frames, the size of the result array; the source writes past it for more.
- PageFrameAlloc.FrameAllocator.BitmapGetUnallocatedPages: only on an empty stack, as its comment asks and its one caller ensures; the return after its loop is unreachable and has no counterpart.
- Kmain.Prepare: the managed frames end within 2^32; those of the source do not, and then include the frames of the kernel's own tables (FullBitmapReachesKernel) and hand them out.
- Paging.Mmu.MapPage: physical addresses are page-aligned, and the page is not the temporary one; 4 MB pages (the PS bit) are not modelled, and the loader clears its only one before kmain.
- Paging.Mmu.ClearWindow: memset by words, not by bytes.
- Paging.Mmu.CreatePdt: its messages are left out.
- Utilities.SlowDivide: a zero divisor, for which the source does not return.
- Stdio.PrintfNumber: radices other than 10, which no caller uses.
- printf's format scanning, putchar and the two output devices: no invariant of their own.
- TLB entries of other pages, and permissions beyond PRESENT, RW and the USER lemma.
- allocate_page, free_page, unmap_page, unmap_temp_page: unused or unfinished, mixing virtual and physical addresses.
- process.c and syscall.c: unfinished and commented out of the boot path.
- Port I/O, serial port, frame buffer, interrupt controller, GDT, IDT and assembly: hardware effects and straight-line bit fields.

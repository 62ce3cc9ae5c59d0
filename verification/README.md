# Verified model of the MeetiX kernel's memory, file and virtual-8086 core

This project models, in Dafny, the stateful core of the MeetiX kernel (Evangelion) and
proves what that core keeps over whole runs. Values of the system that are changed in
place are classes; their specifications are functions and lemmas over plain values.
A kernel panic, which halts the machine, is the outcome `Panic`.

| files | what they model |
|---|---|
| `PageTables`, `AddressSpaces`, `ForkedSpaces` | two-level page tables and what they grant a process, shared kernel tables, mapping, copy-on-write fork |
| `ProcessFrames`, `OwnedRanges`, `ProcessMemory` | frame reference counts, ranges whose frames a process owns, `sbrk`, `allocMem`, `unmap`, image loading, copy-on-write faults, runs of all of them |
| `BootMemory`, `KernelTables`, `KernelStart` | the boot memory map, the loader's paging, and the way from there to the first run of processes |
| `PhysicalPages`, `TemporaryPaging` | bitmap allocator, reference counts, temporary pages |
| `ChunkHeap`, `RangePools` | the kernel heap and the pool of virtual address ranges |
| `Pipes`, `Descriptors`, `HashMaps` | pipe buffers, descriptors and pipe references, the chained hash map |
| `FileTrees`, `Discovery`, `DirectoryRefresh`, `VirtualFiles` | paths, the virtual file system as a lazily filled cache of the ramdisk |
| `Vm86` | the virtual-8086 monitor |
| `Basics` | optional values, sizes of sets |

Every file belongs to one project: `dafny verify dfyconfig.toml`.

## Where the code does less than one might expect

Each of these is proved with the exact condition under which the expected property holds.

- A shrinking heap frees a frame when its 16-bit count reaches zero. That happens if and
  only if the number of remaining mappers is a multiple of 65536
  (`ProcessFrames.DecrementFreesExactly`, with a failing state in `ProcessFrames.FreedWhileMapped`).
  No run gets there: every process holds a kernel stack page of its own from a range of 64256 pages, so
  the invariant itself keeps the number of spaces below (`ProcessMemory.ProcessTable.FewSpaces`). A fork
  does not look whether it got such a page.
- `unmap` looks at the owner's flag of a range whether the range is in use or not. It keeps the invariant
  of all processes if and only if the range is in use or the flag is clear
  (`ProcessMemory.ProcessTable.Unmap`). A range unmapped twice is an example: unless a free range ends
  where it starts, the second call makes frame 0 free, and the next allocation panics over it
  (`ProcessMemory.ProcessTable.UnmapTwice`).
- After a fork, a fault gives a process a writable copy of a page only up to the page at the end of
  its image. The heap pages behind it stay read-only in both processes over every run in which no
  break moves (`ProcessMemory.ProcessTable.ForkThenRun`).
- The chunk heap's fit test adds the header in 32 bits and is exact if and only if that does
  not overflow (`Chunks.FitTestExact`; `Chunks.HugeRequestPasses` is a request it fails for).
- The used-memory counter is exact if and only if every request so far was for at least eight
  bytes, as long as the bytes added by rounding stay below 4 GiB
  (`KernelHeaps.KernelHeap.CounterExact`, with a failing history in `KernelHeaps.SmallRequestDrifts`).
- The free-page counter is off by exactly the number of double frees (`PhysicalPages.CounterDrift`,
  with one in `PhysicalPages.DoubleFreeDrifts`).
- `clonefd` closes a replaced descriptor under the source's process, and overwrites whatever an
  automatically chosen number names. References and descriptors stay in agreement if and only if a
  replaced number names a pipe in neither of two different processes and an automatic number names no
  pipe (`Descriptors.CloneAgrees`; `Descriptors.CloneLeavesReference` and
  `Descriptors.CloneAfterForkLeavesReference` fail in these two ways). It also reads the source's
  content after that close, so the two numbers must differ when the target is in use
  (`Descriptors.SourceSurvives`). `pipe` takes two automatic numbers and has the same condition
  (`Descriptors.MakePipeAgrees`).
- A forked child starts numbering at 3 again. Its automatic numbers are unused if and only if
  the parent has no descriptor of 3 or more (`Descriptors.ForkCopiesDescriptors`, with a
  concrete collision in `Descriptors.ForkReusesNumbers`).
- The written path of a node leads back to it if and only if it fits the path limit
  (`FileTrees.PathRoundTrip`, with a node that is lost in `Discovery.LongNameIsLost`). Every node that
  an absolute path within the limit finds is such a node (`FileTrees.FoundPathFits`).
- `getRealPathToNode` documents a buffer of `PATH_MAX` bytes (`filesystem.hpp`, line 89), and both
  callers pass one. Its length check leaves out the leading slash and the terminator, so it stays
  within a buffer if and only if the written names with two more bytes fit
  (`VirtualFiles.FileSystem.GetRealPathToNode`; in `Discovery.LongNameOverruns` they do not, for a node
  whose own path fitted). A directory refresh appends an entry's name in such a buffer and has its own
  exact condition (`VirtualFiles.FileSystem.RequestDirectoryRefresh`).
- A directory refresh looks entries up by the text of their paths. No path leads to a node whose name
  holds a slash (`FileTrees.NoPathToSlashName`), so a child is found again if and only if its name holds
  none (`FileTrees.ChildFoundByPath`). An entry is made twice if and only if it has a node and its path
  leads nowhere (`DirectoryRefresh.MadeTwice`), and a second refresh changes nothing if and only if the
  text of every name with a slash leads somewhere (`DirectoryRefresh.RefreshTwice`; it does not in
  `DirectoryRefresh.SlashNameIsMadeTwice`).
- `AddressSpace::map` creates a table with the flags it is given. In the user half the paging
  invariant survives if and only if they admit the user (`PageTables.UserTablesNeedUserFlag`).
- A discovery runs its after-work twice if and only if something had to be discovered and was
  found (`VirtualFiles.DiscoveryHandler.Discover`).
- An interrupt frame lies where the stack offset finds it if and only if the offset was at
  least six (`GuestMemory.PushedWhereFound`; `GuestMemory.SmallOffsetMisses` has an offset of two, in any
  segment but the first).
- A 16-bit `POPF` and an `IRET` load the guest's flags word with its privilege level. At level 3 the
  guest changes the real interrupt flag without a fault: over every run the flag stays set if and only
  if no such word with level 3 is loaded (`Vm86.FlagsKeptExactly`, with a failing run in
  `Vm86.PoppedLevel3LosesInterrupts`).
- The last whole page of every usable memory region is not used (`BootRegions.LastPageIsSkipped`),
  and a module that reaches the last page of memory is not protected (`BootRegions.ModuleTest`).
- `HashMap::size` also counts additions that only replaced a value (`HashMaps.HashMap.Add`, as in
  `HashMaps.AddedTwice`).
- A request below the heap start reaches the image if and only if the break falls more than a
  page below the heap start (`HeapBreaks.ResizedPages`).

## Model

| member | source | states |
|---|---|---|
| `PageTables.RecursiveSlotReachesTables` | source/Evangelion/EvaShared/memory/constants.hpp:74-76 | through the recursive directory slot, page 1023*1024+i of a space is the frame of its i-th table |
| `PageTables.KernelHalfCoherent` | source/Evangelion/EvaLoader/kernelloader/KernelLoader.cpp:52-66 | in a well-formed memory a kernel page translates alike in every address space |
| `PageTables.WriteEntryIsUpdate` | source/Evangelion/EvangelionNG/memory/AddressSpace.cpp:85-110 | writing one table entry changes the translation of exactly that page, in one space for a private table and in all spaces for a shared one, and keeps well-formedness |
| `PageTables.InstallTableIsInvisible` | source/Evangelion/EvangelionNG/memory/AddressSpace.cpp:53-76 | hanging an empty table from a fresh frame into a directory changes no translation and keeps well-formedness |
| `PageTables.UserTablesNeedUserFlag` | source/Evangelion/EvangelionNG/memory/AddressSpace.cpp:53-76 | hanging a table into a user slot keeps the invariant if and only if its flags admit the user and are present and writable |
| `PageTables.UserAccess` | source/Evangelion/EvaShared/memory/paging.hpp:31-60 | in the user half the present, user and write bits of the page word alone decide what the processor grants a process, because every directory word there is open |
| `PageTables.KernelHalfHidden` | source/Evangelion/EvaShared/memory/paging.hpp:31-60 | the processor grants a process no page of the kernel half and no page table through the recursive slot |
| `PageTables.AddDirectoryIsIsolated` | source/Evangelion/EvangelionNG/tasking/ThreadManager.cpp:50-77 | a new directory that shares only the shared slots keeps all old translations and the whole invariant |
| `KernelTables.BootIsWellFormed` | source/Evangelion/EvaLoader/kernelloader/KernelLoader.cpp:52-66 | the loader's space is fit to be shared with processes if and only if its lowest table and every kernel table exist |
| `KernelTables.InstallBootTable` | source/Evangelion/EvaLoader/memory/PagingInitializer.cpp:138-148 | hanging an empty table into an unused slot of the loader's directory changes no translation |
| `KernelTables.WriteBootEntry` | source/Evangelion/EvaLoader/memory/PagingInitializer.cpp:150-153 | writing one entry of a table sets exactly that page |
| `BootPaging.LoaderPaging.CreateKernelTables` | source/Evangelion/EvaLoader/kernelloader/KernelLoader.cpp:52-66 | afterwards the space is fit to be shared if and only if no kernel table below the image's is missing; no translation changes; ends early only when no frame is left |
| `AddressSpaces.KernelMemory.constructor` | source/Evangelion/EvaLoader/kernelloader/KernelLoader.cpp:52-66 | takes over the boot directory with the invariant |
| `AddressSpaces.KernelMemory.EnsureTable` | source/Evangelion/EvangelionNG/memory/AddressSpace.cpp:53-76 | creates a missing table without changing a translation or another slot; panics exactly when no frame is left |
| `AddressSpaces.KernelMemory.Map` | source/Evangelion/EvangelionNG/memory/AddressSpace.cpp:40-111 | acts as update of one page on the page-to-word map, refuses exactly an already mapped page without override, panics exactly on misalignment, on a user table over a kernel one or without frames |
| `AddressSpaces.KernelMemory.MapToTemporaryMappedDirectory` | source/Evangelion/EvangelionNG/memory/AddressSpace.cpp:116-158 | the same update in another space, panicking on a mapped page |
| `AddressSpaces.KernelMemory.Unmap` | source/Evangelion/EvangelionNG/memory/AddressSpace.cpp:163-181 | acts as removal of one page; all other translations in all spaces stay |
| `AddressSpaces.KernelMemory.VirtualToPhysical` | source/Evangelion/EvangelionNG/memory/AddressSpace.cpp:204-214 | acts as lookup in the page-to-word map |
| `AddressSpaces.KernelMemory.SwitchToSpace` | source/Evangelion/EvangelionNG/memory/AddressSpace.cpp:186-189 | keeps the invariant for any space of the kernel |
| `Bitmaps.LowestBit` | source/Evangelion/EvaShared/memory/bitmap/BitmapPageAllocator.cpp:66-74 | finds the lowest set bit of an entry |
| `Bitmaps.MarkedRepresents` | source/Evangelion/EvaShared/memory/bitmap/bitmap.hpp:38-51 | setting or clearing one bit adds or removes exactly that page in the set the bitmap stands for |
| `Bitmaps.BitMapPageAllocator.Initialize` | source/Evangelion/EvaShared/memory/bitmap/BitmapPageAllocator.cpp:35-43 | afterwards no page is free |
| `Bitmaps.BitMapPageAllocator.MarkFree` | source/Evangelion/EvaShared/memory/bitmap/BitmapPageAllocator.cpp:48-54 | adds exactly that page to the free set |
| `Bitmaps.BitMapPageAllocator.Allocate` | source/Evangelion/EvaShared/memory/bitmap/BitmapPageAllocator.cpp:59-81 | removes and returns the lowest free page, 0 exactly when none is free or page 0 is the lowest |
| `PhysicalPages.CounterDrift` | source/Evangelion/EvangelionNG/memory/physical/PPallocator.cpp:91-117 | after every run the free-page counter exceeds the number of free pages by exactly the number of double frees |
| `PhysicalPages.DoubleFreeDrifts` | source/Evangelion/EvangelionNG/memory/physical/PPallocator.cpp:91-98 | one page freed twice leaves one free page and a counter of two |
| `PhysicalPages.FreeUndoesAllocate` | source/Evangelion/EvangelionNG/memory/physical/PPallocator.cpp:91-117 | freeing the page just allocated restores set and counter |
| `PhysicalPages.PPallocator.InitializeFromBitmap` | source/Evangelion/EvangelionNG/memory/physical/PPallocator.cpp:55-86 | takes over the loader's free set and counts it exactly |
| `PhysicalPages.PPallocator.Free` | source/Evangelion/EvangelionNG/memory/physical/PPallocator.cpp:91-98 | one free step of the run machine |
| `PhysicalPages.PPallocator.Allocate` | source/Evangelion/EvangelionNG/memory/physical/PPallocator.cpp:103-117 | one allocate step; panics exactly without a usable page, and then none is left unless page 0 was free |
| `FrameReferences.WrapSteps` | source/Evangelion/EvangelionNG/memory/physical/PPreferenceTracker.cpp:34-61 | 16-bit counting commutes with adding and subtracting one |
| `FrameReferences.PPreferenceTracker.Increment` | source/Evangelion/EvangelionNG/memory/physical/PPreferenceTracker.cpp:34-48 | adds one, modulo 16 bits, to the count of that frame and to no other |
| `FrameReferences.PPreferenceTracker.Decrement` | source/Evangelion/EvangelionNG/memory/physical/PPreferenceTracker.cpp:53-61 | subtracts one; a frame without a table answers 0 |
| `ForkedSpaces.InitializePageDirectoryForProcess` | source/Evangelion/EvangelionNG/tasking/ThreadManager.cpp:50-77 | the new space shows the kernel half and nothing in the user half; other spaces are unchanged |
| `ForkedSpaces.CloneTable` | source/Evangelion/EvangelionNG/tasking/ThreadManager.cpp:106-126 | the clone equals the table without the write bit and one reference is counted for every page in it |
| `ForkedSpaces.CountPagesCounts` | source/Evangelion/EvangelionNG/tasking/ThreadManager.cpp:110-123 | counting page by page adds to each frame, modulo 16 bits, the number of pages that map it |
| `ForkedSpaces.CloneSlot` | source/Evangelion/EvangelionNG/tasking/ThreadManager.cpp:101-130 | one directory slot: empty slots stay empty, tables are cloned into fresh frames |
| `ForkedSpaces.CloneDirectory` | source/Evangelion/EvangelionNG/tasking/ThreadManager.cpp:92-133 | all slots: the clone shares the kernel tables and owns read-only copies of the others |
| `ForkedSpaces.ForkedDirectoryIsIsolated` | source/Evangelion/EvangelionNG/tasking/ThreadManager.cpp:92-133 | installing the cloned directory keeps the invariant and every old translation |
| `ForkedSpaces.MapUserStack` | source/Evangelion/EvangelionNG/tasking/ThreadManager.cpp:141-154 | every stack page of the child gets a frame of its own |
| `ForkedSpaces.MapKernelStack` | source/Evangelion/EvangelionNG/tasking/ThreadManager.cpp:159-164 | the stack page is set in all spaces to a frame from the pool, for the kernel alone, unless it was set already; exactly one frame leaves the pool; halts exactly on misalignment or without a frame |
| `ForkedSpaces.ProtectTable` | source/Evangelion/EvangelionNG/tasking/ThreadManager.cpp:167-184 | takes the write bit from every entry of a table and nothing else |
| `ForkedSpaces.ProtectProcessArea` | source/Evangelion/EvangelionNG/tasking/ThreadManager.cpp:167-184 | no page of the parent's process area stays writable; frames and other flags are kept |
| `ForkedSpaces.ForkCurrentPageDirectory` | source/Evangelion/EvangelionNG/tasking/ThreadManager.cpp:82-190 | parent and child map every process page to the same frame with equal flags and no write bit, unmapped pages stay unmapped in both, the child has tables of its own in frames that were not in use, other spaces are unchanged; it halts only when no frame is left or the stack address is misaligned |
| `ProcessFrames.MappersAfterPageSet` | source/Evangelion/EvangelionNG/memory/AddressSpace.cpp:40-111 | setting one page moves exactly that page between the mapper sets of two frames |
| `ProcessFrames.DecrementFreesExactly` | source/Evangelion/EvangelionNG/calls/SyscallHandlerMemory.cpp:339-350 | a decrement answers 0, and the frame is freed, if and only if the number of remaining mappers is a multiple of 65536 |
| `ProcessFrames.FreedWhileMapped` | source/Evangelion/EvangelionNG/calls/SyscallHandlerMemory.cpp:339-350 | of 65537 mappings one goes away: the frame is freed while 65536 are left |
| `ProcessFrames.KernelStacksBoundSpaces` | source/Evangelion/EvangelionNG/tasking/ThreadManager.cpp:233-260 | processes with a kernel stack page of their own from the kernel ranges number at most 64256, fewer than the counts could miss |
| `OwnedRanges.ShuffleLeavesRanges` | source/Evangelion/EvangelionNG/calls/SyscallHandlerMemory.cpp:290-359 | whatever creates tables or maps, frees and copies pages of process areas leaves owned frames unshared, out of the pool and out of the tables, and vacant pages unmapped |
| `OwnedRanges.PageBecomesOwned` | source/Evangelion/EvangelionNG/calls/SyscallHandlerMemory.cpp:64-76 | mapping a fresh frame at a vacant range page makes it owned: it is no table, not free, in no process area and has no other owner |
| `OwnedRanges.PoolsAfterTake` | source/Evangelion/EvangelionNG/calls/SyscallHandlerMemory.cpp:57-76 | after a range was taken for an owner and its pages got frames, live ranges with the owner flag hold exactly the owned pages and free ranges only vacant ones, in every process |
| `OwnedRanges.PoolsAfterGive` | source/Evangelion/EvangelionNG/calls/SyscallHandlerMemory.cpp:257-275 | the same after the frames of a live range, its pages and the range were given back |
| `OwnedRanges.FoundAgain` | source/Evangelion/EvangelionNG/memory/collections/AddressRangePool.cpp:177-247 | a range given back is found again at its start, unused and with its flags, if and only if no free range ended there |
| `OwnedRanges.NothingLost` | source/Evangelion/EvangelionNG/calls/SyscallHandlerMemory.cpp:46-285 | taking frames for a stretch of pages and giving them back restores the ownership, and every frame that was free is free again or became a page table |
| `ProcessFrames.LastMapper` | source/Evangelion/EvangelionNG/calls/SyscallHandlerMemory.cpp:339-350 | with at most 65536 address spaces the freed frame has no mapper left |
| `ProcessFrames.AddMapping` | source/Evangelion/EvangelionNG/executable/Elf32Loader.cpp:130-135 | mapping a fresh frame and incrementing keeps counts equal to mappers, mapped pages open to the process, and writable pages unshared |
| `ProcessFrames.RemoveMapping` | source/Evangelion/EvangelionNG/calls/SyscallHandlerMemory.cpp:339-350 | unmapping and decrementing keeps all of this, and no freed frame is mapped |
| `ProcessFrames.ReplaceMapping` | source/Evangelion/EvangelionNG/system/interrupts/handling/InterruptExceptionHandler.cpp:214-227 | replacing a shared frame by a private writable copy keeps all of this |
| `ProcessFrames.ForkMapping` | source/Evangelion/EvangelionNG/tasking/ThreadManager.cpp:82-190 | a fork keeps all of this: every frame gains the child's pages, and no shared page is writable |
| `ProcessFrames.WritersAfterPageSet` | source/Evangelion/EvangelionNG/system/interrupts/handling/InterruptExceptionHandler.cpp:214-227 | a page that goes away or moves to a frame nobody maps leaves every writable page the only one on its frame |
| `HeapBreaks.AcceptedBreakIsExact` | source/Evangelion/EvangelionNG/calls/SyscallHandlerMemory.cpp:290-325 | an accepted request moves the break by the exact amount, without 32-bit wrap |
| `HeapBreaks.ResizedPages` | source/Evangelion/EvangelionNG/calls/SyscallHandlerMemory.cpp:326-350 | how many heap pages a request leaves; the image is reached if and only if the break falls more than a page below the heap start |
| `HeapBreaks.SbrkKeepsHeap` | source/Evangelion/EvangelionNG/calls/SyscallHandlerMemory.cpp:290-359 | the heap invariant is kept by every request that stays at or above the heap start |
| `HeapBreaks.BreakBounds` | source/Evangelion/EvangelionNG/calls/SyscallHandlerMemory.cpp:290-359 | over every sequence of such requests (heapPages-1)*4096 <= heapBreak-heapStart <= heapPages*4096 |
| `HeapBreaks.GrowThenShrink` | source/Evangelion/EvangelionNG/calls/SyscallHandlerMemory.cpp:290-359 | growing and shrinking by the same amount restores the break with at most one page of difference |
| `ProcessMemory.GrowHeap` | source/Evangelion/EvangelionNG/calls/SyscallHandlerMemory.cpp:328-336 | maps exactly the missing heap pages, each with a fresh counted frame that the process can write; pages that were there keep their words and no other page of any space changes |
| `ProcessMemory.ShrinkHeap` | source/Evangelion/EvangelionNG/calls/SyscallHandlerMemory.cpp:339-350 | unmaps exactly the pages above the break; a frame of theirs is in the pool afterwards if and only if nobody maps it any more |
| `ProcessMemory.MoveHeap` | source/Evangelion/EvangelionNG/calls/SyscallHandlerMemory.cpp:290-359 | the record follows the value-level break function, exactly its heap pages are mapped, pages that stay keep their words, new ones can be written, and a dropped frame is free if and only if nobody maps it |
| `ProcessMemory.SbrkMoves` | source/Evangelion/EvangelionNG/calls/SyscallHandlerMemory.cpp:290-359 | the value-level break moves by the amount if that is a legal place, starts behind the image with one page, and pages come and go only where the break needs or leaves a whole one |
| `ProcessMemory.FindImageRange` | source/Evangelion/EvangelionNG/executable/Elf32Loader.cpp:109-127 | smallest start and largest end over the load segments |
| `ProcessMemory.MapImage` | source/Evangelion/EvangelionNG/executable/Elf32Loader.cpp:130-136 | every image page gets a fresh counted frame |
| `ProcessMemory.ProcessTable.CreateProcess` | source/Evangelion/EvangelionNG/tasking/ThreadManager.cpp:195-352 | a new process keeps the invariant, has an empty process area, one writable user stack page and a kernel stack page that all spaces see and no process can read; no other page of any space changes |
| `ProcessMemory.ProcessTable.Fork` | source/Evangelion/EvangelionNG/tasking/ThreadManager.cpp:293-331 | a fork keeps the invariant and copies the record; child and parent read exactly what the parent read and write none of it; the child has tables, usable stack pages on different frames and a kernel stack of its own; no other page changes |
| `ProcessMemory.ProcessTable.LoadLoadSegment` | source/Evangelion/EvangelionNG/executable/Elf32Loader.cpp:109-150 | loading keeps the invariant; the image runs from the page of the lowest segment to that of the highest, and the process can read and write every byte of a segment; no other page of any space changes |
| `ProcessMemory.ProcessTable.SystemSbrk` | source/Evangelion/EvangelionNG/calls/SyscallHandlerMemory.cpp:290-359 | a break request keeps the invariant; the break moves by the amount exactly if that is a legal place and the answer is the old one; the process can read every byte below the break and write every new page; frames dropped are free exactly when unmapped; it halts only when no frame is left |
| `ProcessMemory.ProcessTable.HandleCopyOnWriteFault` | source/Evangelion/EvangelionNG/system/interrupts/handling/InterruptExceptionHandler.cpp:203-231 | resolved exactly for a mapped page from the image start up to and including the image end; then the process can write the page, its frame has this one mapper, the old frame is free exactly when nobody maps it, and no other translation changed |
| `ProcessMemory.ProcessTable.MapKernelPage` | source/Evangelion/EvangelionNG/memory/AddressSpace.cpp:40-111 | a kernel page mapped in one space appears in all, for the kernel alone, exactly if it was free or may be overridden; every other page of every space keeps its translation; halts exactly on misalignment |
| `ProcessMemory.ProcessTable.UnmapKernelPage` | source/Evangelion/EvangelionNG/memory/AddressSpace.cpp:163-181 | a kernel page unmapped in one space is gone in all; every other page of every space keeps its translation |
| `ProcessMemory.ProcessTable.Safety` | source/Evangelion/EvangelionNG/memory/physical/PPreferenceTracker.cpp:34-61 | in every reachable state kernel pages translate alike in all spaces and no process can read them or a page table; a process can read exactly what is mapped for it; no mapped process frame is free or a page table; what one process can write no other page of a process area shows; below 32768 mappers the stored count is their number |
| `ProcessMemory.ProcessTable.OwnersAlone` | source/Evangelion/EvangelionNG/calls/SyscallHandlerMemory.cpp:46-111 | memory from allocMem can be written by its process, is neither free nor a table, and no other owned page and no process area shows its frame |
| `ProcessMemory.ProcessTable.FewSpaces` | source/Evangelion/EvangelionNG/tasking/ThreadManager.cpp:233-260 | in every state of the invariant there are at most 64257 address spaces, which the 16-bit counts can tell apart |
| `ProcessMemory.ProcessTable.AllocMem` | source/Evangelion/EvangelionNG/calls/SyscallHandlerMemory.cpp:46-111 | keeps the invariant; answers 0 if and only if the size is 0, rounding it up leaves 32 bits, or no run of free pages holds it; otherwise the process can read and write every byte of the area, the range is live with the owner flag and less than a page longer than the size, each page has a frame of its own from the pool, and no other page of any space changes |
| `ProcessMemory.ProcessTable.Unmap` | source/Evangelion/EvangelionNG/calls/SyscallHandlerMemory.cpp:233-285 | keeps the invariant if and only if the range is in use or the owner flag is clear; then its pages are unmapped, the frames of an owner return to the pool and no other page of any space changes; false exactly when no range starts there |
| `ProcessMemory.ProcessTable.AllocThenUnmap` | source/Evangelion/EvangelionNG/calls/SyscallHandlerMemory.cpp:46-285 | memory that is allocated, exactly when a run of free pages holds it, and unmapped leaves the range list, the ownership and, apart from new page tables, the free frames as they were |
| `ProcessMemory.ProcessTable.UnmapTwice` | source/Evangelion/EvangelionNG/calls/SyscallHandlerMemory.cpp:233-285 | a second unmap of an owned range finds nothing if a free range ended where it started; otherwise, and only then, frame 0 becomes free and is the lowest free frame |
| `ProcessMemory.ProcessTable.Serve` | source/Evangelion/EvangelionNG/tasking/ThreadManager.cpp:82-352 | every single request has exactly the effect of its system call (the relation Effect), and keeps the invariant if and only if it does not unmap an unused range with the owner flag set; otherwise the kernel halts only on a misaligned kernel address or when no frame is left |
| `ProcessMemory.ProcessTable.Run` | source/Evangelion/EvangelionNG/tasking/ThreadManager.cpp:82-352 | every run of create, switch, load, sbrk, fork, fault, allocMem, unmap and kernel map/unmap requests, of any length and with any number of spaces, goes through states that follow from each other by the effects of the requests, and keeps the invariant until the first unmap of an unused range with the owner flag set; it halts before only when no frame is left or on a misaligned address |
| `ProcessMemory.EffectFreezes` | source/Evangelion/EvangelionNG/system/interrupts/handling/InterruptExceptionHandler.cpp:203-231 | no request but one that moves its own break changes a read-only heap page behind the image end of any process |
| `ProcessMemory.RunStaysFrozen` | source/Evangelion/EvangelionNG/system/interrupts/handling/InterruptExceptionHandler.cpp:203-231 | over every run that moves no break such pages stay what they are |
| `ProcessMemory.ProcessTable.ForkThenRun` | source/Evangelion/EvangelionNG/system/interrupts/handling/InterruptExceptionHandler.cpp:203-231 | after a fork the heap pages behind the one at the image end are read-only in parent and child and stay so over every run that moves no break and keeps the invariant |
| `KernelStart.UnmapLoader` | source/Evangelion/EvangelionNG/EvangelionNG.cpp:124-125 | the loop leaves nothing mapped between the lower memory and the kernel area and touches nothing else |
| `KernelStart.NoFramesInUse` | source/Evangelion/EvangelionNG/EvangelionNG.cpp:124-125 | a space without process pages meets the reference-count invariant with no count stored |
| `KernelStart.LoadFrames` | source/Evangelion/EvaLoader/loader.cpp:174-175 | the loader's free frames are exactly the marked ones, and frame 0 is never among them |
| `KernelStart.Load` | source/Evangelion/EvaLoader/memory/PagingInitializer.cpp:35-66 | ends in a space fit to be shared in which the reserved memory shows itself, every module byte is at its new place and image and heap of the kernel have frames, or no frame is left |
| `KernelStart.TakeOver` | source/Evangelion/EvangelionNG/EvangelionNG.cpp:114-131 | the kernel that takes over the loader's space and frames meets the invariant of all processes and keeps the lower memory and its own half as the loader left them |
| `KernelStart.StartAndRun` | source/Evangelion/EvangelionNG/EvangelionNG.cpp:114-131 | from any memory map and modules the kernel starts with its image and heap mapped, and through any run of requests, each with its effect, the invariant of all processes holds until an unmap spoils it, or the machine halted because no frame was left or a request had a misaligned address |
| `Chunks.PayloadsDisjoint` | source/Evangelion/EvangelionNG/memory/allocators/ChunkAllocator.cpp:31-143 | live payloads are disjoint from each other and from every header |
| `Chunks.CanonicalIsUnique` | source/Evangelion/EvangelionNG/memory/allocators/ChunkAllocator.cpp:120-143 | a canonical chunk list is determined by its bounds and live blocks alone |
| `Chunks.MergeIsCanonical` | source/Evangelion/EvangelionNG/memory/allocators/ChunkAllocator.cpp:120-143 | merging any tiling gives a tiling without free neighbours |
| `Chunks.MergeKeepsLive` | source/Evangelion/EvangelionNG/memory/allocators/ChunkAllocator.cpp:120-143 | merging changes no live block |
| `Chunks.FitTestExact` | source/Evangelion/EvangelionNG/memory/allocators/ChunkAllocator.cpp:77 | the 32-bit fit test means what it says if and only if the request plus header does not overflow |
| `Chunks.HugeRequestPasses` | source/Evangelion/EvangelionNG/memory/allocators/ChunkAllocator.cpp:77 | a request of 4294967295 bytes passes the test on a free chunk of the size of a header |
| `Chunks.SplitIsCanonical` | source/Evangelion/EvangelionNG/memory/allocators/ChunkAllocator.cpp:64-95 | splitting keeps canonical form and adds exactly one live block |
| `Chunks.FreedIsCanonical` | source/Evangelion/EvangelionNG/memory/allocators/ChunkAllocator.cpp:100-115 | freeing keeps canonical form and removes exactly one live block |
| `Chunks.ExpandedLast` | source/Evangelion/EvangelionNG/memory/allocators/ChunkAllocator.cpp:42-59 | expansion enlarges the free last chunk by exactly the amount |
| `Chunks.AllocateThenFree` | source/Evangelion/EvangelionNG/memory/allocators/ChunkAllocator.cpp:64-115 | allocating and freeing a block is the identity on the chunk list |
| `Chunks.RunIsCanonical` | source/Evangelion/EvangelionNG/memory/allocators/ChunkAllocator.cpp:31-143 | every history of allocate, free and expand keeps canonical form |
| `Chunks.HistoriesAgree` | source/Evangelion/EvangelionNG/memory/allocators/ChunkAllocator.cpp:31-143 | two histories with the same live blocks and end leave the same list |
| `ChunkAllocators.ChunkAllocator.Initialize` | source/Evangelion/EvangelionNG/memory/allocators/ChunkAllocator.cpp:31-37 | one free chunk over the whole area |
| `ChunkAllocators.ChunkAllocator.MergeFree` | source/Evangelion/EvangelionNG/memory/allocators/ChunkAllocator.cpp:120-143 | the loop over linked headers computes the merge of the list |
| `ChunkAllocators.ChunkAllocator.Expand` | source/Evangelion/EvangelionNG/memory/allocators/ChunkAllocator.cpp:42-59 | the headers afterwards represent the expanded list |
| `ChunkAllocators.ChunkAllocator.Allocate` | source/Evangelion/EvangelionNG/memory/allocators/ChunkAllocator.cpp:64-95 | the headers afterwards represent the first-fit split; 0 exactly when no chunk fits |
| `ChunkAllocators.ChunkAllocator.FindFit` | source/Evangelion/EvangelionNG/memory/allocators/ChunkAllocator.cpp:64-75 | the walk finds the first fitting chunk |
| `ChunkAllocators.ChunkAllocator.Free` | source/Evangelion/EvangelionNG/memory/allocators/ChunkAllocator.cpp:100-115 | the headers afterwards represent the freed and merged list; returns the block size |
| `KernelHeaps.ExpansionsCount` | source/Evangelion/EvangelionNG/memory/KernelHeap.cpp:119-134 | no expansion is needed if and only if some free chunk holds the request and a header; otherwise the number is linear in the request and each expansion makes it one less |
| `KernelHeaps.KernelHeap.ExpandHeap` | source/Evangelion/EvangelionNG/memory/KernelHeap.cpp:86-114 | enlarges heap and allocator by exactly 1 MiB, gives every added page without one a frame of its own for the kernel alone, touches no other page of any space, and, unless the heap is at its limit and stays as it is, panics exactly when 256 frames are not left |
| `KernelHeaps.KernelHeap.Allocate` | source/Evangelion/EvangelionNG/memory/KernelHeap.cpp:119-134 | terminates after exactly the computed number of expansions with one new block of at least the size, or panics exactly at the limit or out of pages |
| `KernelHeaps.KernelHeap.BlockBacked` | source/Evangelion/EvangelionNG/memory/KernelHeap.cpp:86-114 | every byte of a block in use, and of its header, is mapped in every address space |
| `KernelHeaps.KernelHeap.Free` | source/Evangelion/EvangelionNG/memory/KernelHeap.cpp:139-144 | removes exactly that block and subtracts its size from the counter |
| `KernelHeaps.KernelHeap.CounterExact` | source/Evangelion/EvangelionNG/memory/KernelHeap.cpp:119-144 | the used-memory counter is the sum of live sizes if and only if the requests were rounded up by a multiple of 4 GiB in all, which below 4 GiB means that every request was for at least eight bytes |
| `KernelHeaps.SmallRequestDrifts` | source/Evangelion/EvangelionNG/memory/KernelHeap.cpp:119-144 | a block of four bytes, given out and freed, leaves the counter at 4294967292 with nothing in use |
| `Ranges.FreeRunInOneRange` | source/Evangelion/EvangelionNG/memory/collections/AddressRangePool.cpp:217-247 | in canonical form a run of free pages lies inside one free range |
| `Ranges.FirstFitComplete` | source/Evangelion/EvangelionNG/memory/collections/AddressRangePool.cpp:130-172 | first fit finds a range if and only if enough contiguous free pages exist |
| `Ranges.CanonicalIsUnique` | source/Evangelion/EvangelionNG/memory/collections/AddressRangePool.cpp:217-247 | a canonical pool is determined by its pages and live ranges, up to flags on free ranges |
| `Ranges.MergeIsCanonical` | source/Evangelion/EvangelionNG/memory/collections/AddressRangePool.cpp:217-247 | merging keeps pages and live ranges and removes touching free ranges |
| `Ranges.MergeKeepsStart` | source/Evangelion/EvangelionNG/memory/collections/AddressRangePool.cpp:217-247 | a range is found at its start after merging, with its use and flags, if and only if it is the first or no touching free range comes before it |
| `Ranges.AllocatedIsCanonical` | source/Evangelion/EvangelionNG/memory/collections/AddressRangePool.cpp:130-172 | allocation keeps pages and canonical form and adds one live range |
| `Ranges.FreedIsCanonical` | source/Evangelion/EvangelionNG/memory/collections/AddressRangePool.cpp:177-212 | freeing keeps pages and canonical form and removes one live range |
| `Ranges.AddedIsCanonical` | source/Evangelion/EvangelionNG/memory/collections/AddressRangePool.cpp:33-75 | a disjoint area adds its pages and no live range |
| `Ranges.AllocateThenFree` | source/Evangelion/EvangelionNG/memory/collections/AddressRangePool.cpp:130-212 | allocating and freeing is the identity up to flags on free ranges |
| `Ranges.RunIsCanonical` | source/Evangelion/EvangelionNG/memory/collections/AddressRangePool.cpp:130-247 | every history keeps canonical form and pages |
| `Ranges.HistoriesAgree` | source/Evangelion/EvangelionNG/memory/collections/AddressRangePool.cpp:130-247 | two histories with the same live ranges leave the same pool up to flags on free ranges |
| `RangePools.AddressRangePool.MergeFree` | source/Evangelion/EvangelionNG/memory/collections/AddressRangePool.cpp:217-247 | the in-place loop computes the merge |
| `RangePools.AddressRangePool.InitializeArea` | source/Evangelion/EvangelionNG/memory/collections/AddressRangePool.cpp:33-75 | adds an area at its place and merges |
| `RangePools.AddressRangePool.InitializeFrom` | source/Evangelion/EvangelionNG/memory/collections/AddressRangePool.cpp:80-103 | copies another pool's list |
| `RangePools.AddressRangePool.Allocate` | source/Evangelion/EvangelionNG/memory/collections/AddressRangePool.cpp:130-172 | succeeds if and only if enough contiguous free pages exist, and then adds exactly one live range |
| `RangePools.AddressRangePool.Free` | source/Evangelion/EvangelionNG/memory/collections/AddressRangePool.cpp:177-212 | frees exactly the live range with that base; -1 and no change when there is none |
| `Streams.StreamConserved` | source/Evangelion/EvangelionNG/filesystem/FsDelegatePipe.cpp:56-235 | over any interleaving, the bytes read followed by the bytes buffered are the bytes accepted, in order |
| `Streams.NothingMoves` | source/Evangelion/EvangelionNG/filesystem/FsDelegatePipe.cpp:56-235 | a request leaves the buffer as it was if and only if it moves no byte |
| `Streams.MovesAllItCan` | source/Evangelion/EvangelionNG/filesystem/FsDelegatePipe.cpp:56-235 | a read takes bytes from the front until it has enough or none is left, a write puts bytes in until all are there or no room is left |
| `Pipes.WrapIsModulus` | source/Evangelion/EvangelionNG/filesystem/FsDelegatePipe.cpp:78-104 | stepping a pointer and resetting it at the end is addition modulo the capacity |
| `Pipes.RingDrop` | source/Evangelion/EvangelionNG/filesystem/FsDelegatePipe.cpp:78-104 | taking bytes at the read pointer drops them from the front of the contents |
| `Pipes.RingAfterPut` | source/Evangelion/EvangelionNG/filesystem/FsDelegatePipe.cpp:179-207 | writing bytes at the write pointer appends them to the contents |
| `Pipes.Copy` | source/Evangelion/EvaShared/memory/memory.cpp:54-62 | the byte loop copies exactly the range |
| `Pipes.Pipe.RequestRead` | source/Evangelion/EvangelionNG/filesystem/FsDelegatePipe.cpp:56-140 | the smaller of length and size many bytes go from the front of the contents to the target and that number is the answer; with none, repeats exactly when blocking and another process could write |
| `Pipes.HasReferenceFromOtherProcess` | source/Evangelion/EvangelionNG/filesystem/pipes.cpp:97-107 | true if and only if another process holds a reference |
| `Pipes.RequestReadFrom` | source/Evangelion/EvangelionNG/filesystem/FsDelegatePipe.cpp:56-140 | the same on the contents of a pipe that may be gone, with the error answer when it is |
| `Pipes.Pipe.RequestWrite` | source/Evangelion/EvangelionNG/filesystem/FsDelegatePipe.cpp:153-235 | as many bytes as there is room for are appended to the contents and that number is the answer; when full, repeats exactly when blocking and another process could read |
| `Pipes.RequestWriteTo` | source/Evangelion/EvangelionNG/filesystem/FsDelegatePipe.cpp:153-235 | the same on a pipe that may be gone, with the error answer when it is |
| `Descriptors.MapFileAgrees` | source/Evangelion/EvangelionNG/filesystem/filesystem.cpp:230-242 | opening keeps references equal to descriptors if and only if the number does not name a pipe already |
| `Descriptors.MapFileFresh` | source/Evangelion/EvangelionNG/filesystem/FsDescriptors.cpp:41-55 | automatic numbers stay unused if and only if an explicit number is below the next one; an automatic number is unused |
| `Descriptors.MapFileTables` | source/Evangelion/EvangelionNG/filesystem/FsDescriptors.cpp:41-55 | opening gives out the number asked for, or else the next one, names the node there from its start, and changes no other descriptor of any process |
| `Descriptors.UnmapFileAt` | source/Evangelion/EvangelionNG/filesystem/filesystem.cpp:247-264 | exactly when closing under some process keeps references equal to descriptors |
| `Descriptors.CloseAgrees` | source/Evangelion/EvangelionNG/filesystem/filesystem.cpp:247-264 | closing an own descriptor keeps references equal to descriptors |
| `Descriptors.CloneAgrees` | source/Evangelion/EvangelionNG/filesystem/filesystem.cpp:403-444 | cloning keeps references equal to descriptors if and only if a number replaced in another process names a pipe in neither process and a number chosen automatically names no pipe |
| `Descriptors.CloneLeavesReference` | source/Evangelion/EvangelionNG/filesystem/filesystem.cpp:413-421 | a concrete clone onto a pipe descriptor of another process after which they disagree |
| `Descriptors.CloneAfterForkLeavesReference` | source/Evangelion/EvangelionNG/filesystem/filesystem.cpp:421-424 | a concrete fork after which the child clones a descriptor to an automatic number and they disagree |
| `Descriptors.CloneTables` | source/Evangelion/EvangelionNG/filesystem/filesystem.cpp:403-444 | the target number holds the source's content and no other descriptor changes except the closed one |
| `Descriptors.MakePipeIsGood` | source/Evangelion/EvangelionNG/filesystem/filesystem.cpp:446-456 | a new pipe has two different unused descriptors and two references |
| `Descriptors.MakePipeAgrees` | source/Evangelion/EvangelionNG/filesystem/filesystem.cpp:446-456 | a new pipe keeps references equal to descriptors if and only if neither of its two numbers names a pipe |
| `Descriptors.MakePipeTables` | source/Evangelion/EvangelionNG/filesystem/filesystem.cpp:446-456 | the next two numbers, in order, are descriptors for the new pipe, and no other descriptor of any process changes |
| `Descriptors.PipeLivesWhileHeld` | source/Evangelion/EvangelionNG/filesystem/pipes.cpp:112-146 | a pipe exists if and only if some process has a descriptor for it |
| `Descriptors.ForkCopiesDescriptors` | source/Evangelion/EvangelionNG/filesystem/filesystem.cpp:212-225 | a fork copies every descriptor and keeps the agreement; automatic numbers of the child are unused if and only if the parent has none of 3 or more |
| `Descriptors.ForkReusesNumbers` | source/Evangelion/EvangelionNG/filesystem/filesystem.cpp:212-225 | a concrete fork after which the child's next automatic number is in use |
| `Descriptors.StepIsGood` | source/Evangelion/EvangelionNG/filesystem/filesystem.cpp:230-264 | each allowed operation keeps agreement, soundness and fresh numbers |
| `Descriptors.RunIsGood` | source/Evangelion/EvangelionNG/filesystem/filesystem.cpp:230-456 | every run of allowed operations keeps agreement, soundness and fresh numbers |
| `Descriptors.RunWithForksAgrees` | source/Evangelion/EvangelionNG/filesystem/filesystem.cpp:212-456 | every run with forks keeps references equal to descriptors and pipes alive exactly while held, as long as no number taken names a pipe |
| `Descriptors.WithoutCounts` | source/Evangelion/EvangelionNG/filesystem/pipes.cpp:112-146 | taking the first entry of a process out of a list removes one of its occurrences |
| `OpenFiles.FileSystem.AddReference` | source/Evangelion/EvangelionNG/filesystem/pipes.cpp:80-92 | one reference of the process more on a live pipe, all other reference counts unchanged |
| `OpenFiles.FileSystem.RemoveReference` | source/Evangelion/EvangelionNG/filesystem/pipes.cpp:112-146 | one reference of the process less, if it had one, all other reference counts unchanged; a pipe that stays has a reference |
| `OpenFiles.FileSystem.MapNode` | source/Evangelion/EvangelionNG/filesystem/filesystem.cpp:230-242 | gives out the number asked for or the next one and changes nothing else; after opening a live node references equal descriptors if and only if the number did not name a pipe |
| `OpenFiles.FileSystem.NodeForDescriptor` | source/Evangelion/EvangelionNG/filesystem/filesystem.cpp:383-398 | found if and only if descriptor and node exist |
| `OpenFiles.FileSystem.CloneDescriptor` | source/Evangelion/EvangelionNG/filesystem/filesystem.cpp:403-444 | the new number holds the source's content, and references equal descriptors if and only if the caller's check held, also where automatic numbers are in use |
| `OpenFiles.FileSystem.ProcessForked` | source/Evangelion/EvangelionNG/filesystem/filesystem.cpp:212-225 | the child ends with the parent's descriptors and the agreement holds |
| `OpenFiles.FileSystem.CreatePipe` | source/Evangelion/EvangelionNG/filesystem/filesystem.cpp:446-456 | the next two numbers name a new pipe and nothing else changes; references equal descriptors if and only if neither number named a pipe, and with unused numbers all invariants are kept |
| `OpenFiles.FileSystem.CloseDescriptor` | source/Evangelion/EvangelionNG/filesystem/filesystem.cpp:247-264 | the number is free afterwards, every other descriptor of every process stays, and references equal descriptors |
| `Paths.TextRoundTrip` | source/Evangelion/EvangelionNG/filesystem/filesystem.cpp:136-153 | a path written from names reads back as those names |
| `FileTrees.FindContinues` | source/Evangelion/EvangelionNG/filesystem/filesystem.cpp:129-174 | looking up a longer path continues where the shorter one ended |
| `FileTrees.FindUpwards` | source/Evangelion/EvangelionNG/filesystem/filesystem.cpp:155-162 | two dots lead to the parent and stay at the root, a dot stays everywhere, and the lookup goes on from there |
| `FileTrees.FindDownwards` | source/Evangelion/EvangelionNG/filesystem/filesystem.cpp:162-174 | a plain name leads to the child of that name and the lookup goes on from there; without such a child it ends with the parent and the name |
| `FileTrees.UpUndoesDown` | source/Evangelion/EvangelionNG/filesystem/filesystem.cpp:155-174 | a name followed by two dots is as if neither was there |
| `FileTrees.FindNames` | source/Evangelion/EvangelionNG/filesystem/filesystem.cpp:129-174 | the names from the root to a node lead to that node |
| `FileTrees.PathIsSuffix` | source/Evangelion/EvangelionNG/filesystem/filesystem.cpp:269-313 | the written text is the text of a suffix of the names, of all of them if and only if it fits the limit |
| `FileTrees.PathRoundTrip` | source/Evangelion/EvangelionNG/filesystem/filesystem.cpp:129-174 | looking up the written path of a node returns that node if and only if the path fits the limit |
| `FileTrees.FoundPathFits` | source/Evangelion/EvangelionNG/filesystem/filesystem.cpp:129-174 | the node that an absolute path within the limit leads to has a written path within the limit that leads back to it |
| `FileTrees.ChildPath` | source/Evangelion/EvangelionNG/filesystem/FsDelegateRamdisk.cpp:272-286 | the written path with a slash and any text appended leads where the names of that text lead from the folder |
| `FileTrees.SimplePath` | source/Evangelion/EvangelionNG/filesystem/FsDelegateRamdisk.cpp:272-286 | a plain name leads to the child of that name or to none; a dot or nothing stays, two dots lead to the parent |
| `FileTrees.NoPathToSlashName` | source/Evangelion/EvangelionNG/filesystem/filesystem.cpp:129-174 | no path whatever leads to a node whose name holds a slash |
| `FileTrees.ChildFoundByPath` | source/Evangelion/EvangelionNG/filesystem/FsDelegateRamdisk.cpp:272-286 | a child is found again by its path if and only if its name holds no slash |
| `VirtualFiles.FileSystem.FindExisting` | source/Evangelion/EvangelionNG/filesystem/filesystem.cpp:129-174 | the scanning loops compute the lookup of the path's names, with dots and double dots |
| `VirtualFiles.FileSystem.FindNamedChild` | source/Evangelion/EvangelionNG/filesystem/FsNode.cpp:38-48 | finds the first child of that name |
| `VirtualFiles.FileSystem.GetRealPathToNode` | source/Evangelion/EvangelionNG/filesystem/filesystem.cpp:269-313 | the buffer shifting writes exactly the path of the node and a terminator, and stays within the buffer if and only if they fit |
| `VirtualFiles.AppendName` | source/Evangelion/EvangelionNG/filesystem/FsDelegateRamdisk.cpp:275-280 | appends a slash, the name and a terminator, within the buffer if and only if they fit |
| `VirtualFiles.FileSystem.LookUpInFolder` | source/Evangelion/EvangelionNG/filesystem/FsDelegateRamdisk.cpp:271-286 | found if and only if the path of the folder with the name leads to a node, for every name; within the buffer if and only if the path fits |
| `VirtualFiles.Shift` | source/Evangelion/EvangelionNG/filesystem/filesystem.cpp:296-298 | moves the text to the right unharmed |
| `Ramdisks.EntryChildFound` | source/Evangelion/EvangelionNG/ramdisk/ramdisk.cpp:137-148 | finds an entry with that parent and name if and only if there is one |
| `Ramdisks.EarlierEntryWins` | source/Evangelion/EvangelionNG/ramdisk/ramdisk.cpp:137-148 | of several entries with that parent and name the first is found |
| `Ramdisks.KidsInOrder` | source/Evangelion/EvangelionNG/ramdisk/ramdisk.cpp:244-261 | the children of an entry keep the order of the list |
| `VirtualFiles.FindEntry` | source/Evangelion/EvangelionNG/ramdisk/ramdisk.cpp:137-148 | the list walk finds the first such entry |
| `VirtualFiles.FindById` | source/Evangelion/EvangelionNG/ramdisk/ramdisk.cpp:152-171 | found if and only if it is the root number or some entry has it |
| `VirtualFiles.GetChildAt` | source/Evangelion/EvangelionNG/ramdisk/ramdisk.cpp:244-261 | the entry at that position among the children, none behind the last |
| `Discovery.DelegateOfPlace` | source/Evangelion/EvangelionNG/filesystem/FsNode.cpp:61-66 | which delegate serves a node follows from where it stands |
| `Discovery.WalkUpUndoesDown` | source/Evangelion/EvangelionNG/filesystem/filesystem.cpp:155-174 | on the ramdisk, too, a name followed by two dots is as if neither was there, and above the root is the root |
| `Discovery.BelowMeans` | source/Evangelion/EvangelionNG/filesystem/FsDelegateRamdisk.cpp:40-92 | the mountpoints made at boot lie below their nodes; elsewhere a name leads on if and only if the ramdisk has an entry of that name below the last one |
| `Discovery.FindFollowsWalk` | source/Evangelion/EvangelionNG/filesystem/FsTransactionHandlerDiscovery.cpp:35-53 | the cache lookup follows the walk on the entry list as far as the cache goes |
| `Discovery.DiscoverKeepsMirror` | source/Evangelion/EvangelionNG/filesystem/FsDelegateRamdisk.cpp:35-54 | a discovered node matches its entry by number, name, kind and parent, siblings keep different names, old nodes stay where they were |
| `Discovery.SecondNodeSpoils` | source/Evangelion/EvangelionNG/filesystem/FsDelegateRamdisk.cpp:35-54 | a second node for an entry spoils the cache if and only if a path can ask for its name |
| `Discovery.DiscoveredFromBoot` | source/Evangelion/EvangelionNG/filesystem/FsDelegateRamdisk.cpp:58-86 | the tree that the ramdisk delegate makes from the boot tree for the one entry of a ramdisk |
| `Discovery.LongNameIsLost` | source/Evangelion/EvangelionNG/filesystem/filesystem.cpp:286-291 | such a tree with a node whose written path leads to the root instead |
| `Discovery.LongNameOverruns` | source/Evangelion/EvangelionNG/filesystem/filesystem.cpp:286-312 | such a tree with a node found by a path that fits a buffer of the limit, and whose written path does not |
| `DirectoryRefresh.RefreshIsTrue` | source/Evangelion/EvangelionNG/filesystem/FsDelegateRamdisk.cpp:255-299 | after a refresh every node still matches its entry and stands where it stood, every entry has a node or its text leads to another one, and every plain name has a node |
| `DirectoryRefresh.RefreshIsIdle` | source/Evangelion/EvangelionNG/filesystem/FsDelegateRamdisk.cpp:268-291 | a refresh changes nothing if and only if the path of every entry leads to some node |
| `DirectoryRefresh.RefreshTwice` | source/Evangelion/EvangelionNG/filesystem/FsDelegateRamdisk.cpp:268-291 | a second refresh changes nothing if and only if the text of every name with a slash leads to some node after the first |
| `DirectoryRefresh.MadeTwice` | source/Evangelion/EvangelionNG/filesystem/FsDelegateRamdisk.cpp:271-290 | refreshing an entry makes its node a second time if and only if it has one and its path leads nowhere |
| `DirectoryRefresh.MadeTwiceBySlash` | source/Evangelion/EvangelionNG/filesystem/FsDelegateRamdisk.cpp:271-290 | where the folder has a path within the limit this happens only to names with a slash, and exactly when the text leads nowhere from the folder |
| `DirectoryRefresh.SlashNameIsMadeTwice` | source/Evangelion/EvangelionNG/filesystem/FsDelegateRamdisk.cpp:271-290 | two refreshes of the root after boot make two nodes for the one file a/b |
| `DirectoryRefresh.RefreshKeepsPath` | source/Evangelion/EvangelionNG/filesystem/FsDelegateRamdisk.cpp:271-273 | the path of the folder is the same for every entry |
| `Discovery.AttachedGoesFurther` | source/Evangelion/EvangelionNG/filesystem/FsTransactionHandlerDiscovery.cpp:91-107 | each discovered node takes the lookup at least one name further |
| `VirtualFiles.FileSystem.constructor` | source/Evangelion/EvangelionNG/filesystem/filesystem.cpp:55-95 | makes exactly the boot nodes, which mirror the ramdisk |
| `VirtualFiles.FileSystem.CreateVfsNode` | source/Evangelion/EvangelionNG/filesystem/FsDelegateRamdisk.cpp:35-54 | adds one node and keeps the mirror |
| `VirtualFiles.FileSystem.RequestFromRamdisk` | source/Evangelion/EvangelionNG/filesystem/FsDelegateRamdisk.cpp:58-86 | succeeds if and only if the entry exists, and then adds its node |
| `VirtualFiles.FileSystem.RequestDirectoryRefresh` | source/Evangelion/EvangelionNG/filesystem/FsDelegateRamdisk.cpp:255-299 | the loop makes exactly the refreshed table, for every folder and every name, up to the first entry whose path does not fit; the cache stays true to the ramdisk where the folder has a path within the limit |
| `VirtualFiles.FileSystem.RefreshEntry` | source/Evangelion/EvangelionNG/filesystem/FsDelegateRamdisk.cpp:271-290 | one entry; within the buffer if and only if its path fits |
| `VirtualFiles.DiscoveryHandler.StartTransaction` | source/Evangelion/EvangelionNG/filesystem/FsTransactionHandlerDiscovery.cpp:35-80 | either answers with the ramdisk's own answer, or makes one request that goes further or settles the answer |
| `VirtualFiles.DiscoveryHandler.RequestDiscovery` | source/Evangelion/EvangelionNG/filesystem/FsDelegateMount.cpp:35-45 | only the ramdisk discovers; mount directory: not found, pipe directory: error |
| `VirtualFiles.DiscoveryHandler.FinishTransaction` | source/Evangelion/EvangelionNG/filesystem/FsTransactionHandlerDiscovery.cpp:85-112 | repeats exactly after a successful request that leaves names over |
| `VirtualFiles.DiscoveryHandler.CheckWaiting` | source/Evangelion/EvangelionNG/tasking/wait/WaiterFsTransaction.hpp:59-110 | one visit of the waiter makes progress or ends |
| `VirtualFiles.DiscoveryHandler.Discover` | source/Evangelion/EvangelionNG/filesystem/FsTransactionHandlerDiscovery.cpp:35-112 | ends after at most one request per name with the entry a direct walk finds, or with the deepest existing parent; after-work runs twice exactly when something was discovered and found |
| `GuestMemory.PushedWhereFound` | source/Evangelion/EvangelionNG/vm86/Virtual8086Monitor.cpp:138-139 | a pushed frame lies where the stack offset finds it if and only if the offset is at least as large as the frame |
| `GuestMemory.SmallOffsetMisses` | source/Evangelion/EvangelionNG/vm86/Virtual8086Monitor.cpp:138-139 | with stack offset 2 in any segment but the first a frame is written four bytes below the segment and looked for at its offset 0xFFFC |
| `Vm86.EmulateKeepsFlags` | source/Evangelion/EvangelionNG/vm86/Virtual8086Monitor.cpp:78-187 | no instruction clears the real interrupt flag or the mode flag |
| `Vm86.HandleOutcome` | source/Evangelion/EvangelionNG/vm86/Virtual8086Monitor.cpp:36-283 | how each fault ends and what it does to the recursion level |
| `Vm86.EmulateMeans` | source/Evangelion/EvangelionNG/vm86/Virtual8086Monitor.cpp:36-283 | what each opcode does to every register, flag, port and byte of memory: INT goes to the segment and offset of its vector, CLI and STI set the virtual flag, port accesses move the low byte or half of eax, and each but INT and IRET moves the program counter by one |
| `Vm86.HandleMeans` | source/Evangelion/EvangelionNG/vm86/Virtual8086Monitor.cpp:36-283 | a whole fault is the instruction behind n prefixes, with 32-bit operands if and only if 0x66 is among them |
| `Vm86.RunInvariant` | source/Evangelion/EvangelionNG/vm86/Virtual8086Monitor.cpp:36-283 | over every run the level is INTs minus IRETs |
| `Vm86.FaultIsGuarded` | source/Evangelion/EvangelionNG/vm86/Virtual8086Monitor.cpp:99-187 | after a fault every way the guest can go on keeps the real IF and VM if and only if the fault did not load privilege level 3 |
| `Vm86.FlagsKeptExactly` | source/Evangelion/EvangelionNG/vm86/Virtual8086Monitor.cpp:99-187 | over every run from the start of the guest, whatever the guest does before and between faults, the real flags keep IF and VM if and only if no 16-bit POPF and no IRET loads a flags word with privilege level 3 |
| `Vm86.PoppedLevel3LosesInterrupts` | source/Evangelion/EvangelionNG/vm86/Virtual8086Monitor.cpp:119-124 | a run of a new task that pops a word 0x30xx and then runs with the real interrupt flag cleared |
| `Vm86.FinishesAtUnmatchedReturn` | source/Evangelion/EvangelionNG/vm86/Virtual8086Monitor.cpp:162-187 | over every run from the start of the guest FINISHED is returned exactly at the first IRET that no INT opened |
| `Vm86.ReturnUndoesInterrupt` | source/Evangelion/EvangelionNG/vm86/Virtual8086Monitor.cpp:136-187 | IRET on an intact frame restores code segment, the address after INT, low flags, virtual IF and stack offset |
| `Vm86.NestedInterruptRestores` | source/Evangelion/EvangelionNG/vm86/Virtual8086Monitor.cpp:136-187 | the same for any properly nested INT and IRET of a run, with the recursion level |
| `Vm86.PopfUndoesPushf16` | source/Evangelion/EvangelionNG/vm86/Virtual8086Monitor.cpp:78-128 | POPF undoes PUSHF with 16-bit operands |
| `Vm86.PopfUndoesPushf32` | source/Evangelion/EvangelionNG/vm86/Virtual8086Monitor.cpp:78-128 | POPF undoes PUSHF with 32-bit operands on the valid flags |
| `Vm86.Vm86Thread.constructor` | source/Evangelion/EvangelionNG/tasking/ThreadManager.cpp:458-512 | a new task starts where the four bytes of the interrupt's vector say, with level 0, IF and VM set, and a stack of one page at the next page boundary |
| `Vm86.Vm86Thread.PushFlags` | source/Evangelion/EvangelionNG/vm86/Virtual8086Monitor.cpp:78-102 | exactly the bytes of its own view of the flags are pushed, and the guest finds them on top of its stack |
| `Vm86.Vm86Thread.PopFlags` | source/Evangelion/EvangelionNG/vm86/Virtual8086Monitor.cpp:110-128 | the flags are taken bit by bit from the bytes on the stack; the real flags keep IF and VM, and the virtual flag is that of the word popped |
| `Vm86.Vm86Thread.RaiseInterrupt` | source/Evangelion/EvangelionNG/vm86/Virtual8086Monitor.cpp:136-154 | six bytes are pushed, the guest goes on where the four bytes of the vector say, and an IRET from there resumes right behind the INT with flags, virtual IF and stack as before |
| `Vm86.Vm86Thread.ReturnFromInterrupt` | source/Evangelion/EvangelionNG/vm86/Virtual8086Monitor.cpp:162-187 | address, segment and flags are those of the six bytes on the stack; finishes exactly at level 0, with the low halves of the registers as the answer |
| `Vm86.Vm86Thread.HandleGpf` | source/Evangelion/EvangelionNG/vm86/Virtual8086Monitor.cpp:36-283 | the prefixes are skipped and the one instruction behind them is carried out, byte by byte as its opcode says |
| `AddressStacks.AddressStack.Push` | source/Evangelion/EvangelionNG/memory/collections/AddressStack.cpp:42-58 | appends the address, over frames of 128 entries |
| `AddressStacks.AddressStack.Pop` | source/Evangelion/EvangelionNG/memory/collections/AddressStack.cpp:63-83 | takes the last address, 0 exactly when empty |
| `TemporaryPaging.SharedCounts` | source/Evangelion/EvangelionNG/memory/TemporaryPagingUtil.cpp:39-69 | stacked and lent addresses are always the same 256 distinct pages |
| `TemporaryPaging.TemporaryPages.constructor` | source/Evangelion/EvangelionNG/memory/TemporaryPagingUtil.cpp:39-47 | all 256 pages are stacked and unmapped |
| `TemporaryPaging.TemporaryPages.Map` | source/Evangelion/EvangelionNG/memory/TemporaryPagingUtil.cpp:52-60 | never refused as mapped already; panics exactly when all pages are lent or the frame is misaligned |
| `TemporaryPaging.TemporaryPages.Unmap` | source/Evangelion/EvangelionNG/memory/TemporaryPagingUtil.cpp:65-69 | gives the page back unmapped |
| `BootRegions.FreedIsSafe` | source/Evangelion/EvaLoader/memory/MultibootMmapInterpreter.cpp:33-109 | every frame marked free lies whole in a type-1 region, at or above the reserved end and outside every module that ends below the last page |
| `BootRegions.LastPageIsSkipped` | source/Evangelion/EvaLoader/memory/MultibootMmapInterpreter.cpp:74 | a region offers exactly its whole pages except the last |
| `BootRegions.ModuleTest` | source/Evangelion/EvaLoader/memory/MultibootMmapInterpreter.cpp:81-87 | for a module that ends below the last page of memory the test tells exactly the pages that meet it, and for one that reaches it none |
| `BootLoader.LoadMemoryMap` | source/Evangelion/EvaLoader/memory/MultibootMmapInterpreter.cpp:33-109 | marks exactly the offered pages outside all modules |
| `BootLoader.LoadRegion` | source/Evangelion/EvaLoader/memory/MultibootMmapInterpreter.cpp:44-104 | one region |
| `BootLoader.FindFreeMemory` | source/Evangelion/EvaLoader/loader.cpp:79-121 | a found window avoids all modules; the search succeeds within a page of the start or the last module end when everything lies far enough below 4 GiB |
| `BootLoader.CheckWindow` | source/Evangelion/EvaLoader/loader.cpp:84-108 | one window: free, or moved behind a module |
| `BootLoader.FoundPagesAreFree` | source/Evangelion/EvaLoader/loader.cpp:95-106 | a page outside the test holds no byte of a module |
| `BootPaging.LoaderPaging.MapPage` | source/Evangelion/EvaLoader/memory/PagingInitializer.cpp:133-163 | sets exactly one page of the two-level directory; stops exactly at a mapped page or without a frame for its table |
| `BootPaging.LoaderPaging.IdentityMap` | source/Evangelion/EvaLoader/memory/PagingInitializer.cpp:119-128 | every page of the range shows the frame of its own number and no other page is mapped |
| `BootPaging.LoaderPaging.RelocateModules` | source/Evangelion/EvaLoader/memory/PagingInitializer.cpp:80-113 | never meets a mapped page; every byte of a module is found at its new address; new places do not overlap |
| `BootPaging.LoaderPaging.MapKernelPages` | source/Evangelion/EvaLoader/kernelloader/KernelLoader.cpp:68-98 | every page of the range ends with a frame, each new one with a different frame from the pool, and no other translation changes |
| `HashMaps.HashMap.Get` | source/Evangelion/EvaShared/utils/HashMap.hpp:172-185 | acts as lookup, for every hash function |
| `HashMaps.HashMap.Add` | source/Evangelion/EvaShared/utils/HashMap.hpp:190-222 | acts as update; the size grows even when a value is replaced |
| `HashMaps.AddedTwice` | source/Evangelion/EvaShared/utils/HashMap.hpp:190-222 | one key added twice gives one key and a size of two |
| `HashMaps.HashMap.Erase` | source/Evangelion/EvaShared/utils/HashMap.hpp:227-250 | acts as removal; the size falls exactly when the key was there |
| `HashMaps.HashMap.EveryKeyOnce` | source/Evangelion/EvaShared/utils/HashMap.hpp:65-100 | the iterator's order has every key exactly once; the class invariant says size is keys plus replacing additions |
| `HashMaps.HashMapIterator.constructor` | source/Evangelion/EvaShared/utils/HashMap.hpp:65-76 | starts before the first entry of all |
| `HashMaps.HashMapIterator.NextBucket` | source/Evangelion/EvaShared/utils/HashMap.hpp:83-95 | moves to the next entry in a later bucket |
| `HashMaps.HashMapIterator.Advance` | source/Evangelion/EvaShared/utils/HashMap.hpp:81-100 | moves on by exactly one entry |

## Left out

- The system calls `shareMem` and `mapMmio`, which map frames that the process does not own; `allocMem` and `unmap` are modelled.
- The stack-growth branch of the page fault, signal delivery and the scheduler: only the copy-on-write branch of the fault is modelled.
- Process deletion (`deleteTask`, `processClosed`) and thread-local storage pages.
- Page contents: apart from pipe buffers and guest memory, frames are names; copying a page's bytes is not modelled.
- TLB flushes, control registers, ports and other hardware effects; what an input port delivers is a parameter.
- Frames that the kernel reaches through temporary mappings are accessed directly in the paging model; `TemporaryPaging` models those mappings on their own.
- AddressSpaces.KernelMemory.Map: assumes present and writable user flags where a table of the user half is missing, because the invariant does not survive others (`PageTables.UserTablesNeedUserFlag`); every caller that maps user pages passes them.
- AddressSpaces.KernelMemory.MapToTemporaryMappedDirectory: assumes the same of its table flags.
- ProcessMemory.ProcessTable.CreateProcess: makes the address space, the record and both stacks of the main thread; the thread itself is not modelled. It assumes a fresh kernel stack page, which is a parameter; the call fails when the kernel's ranges are used up.
- ProcessMemory.ProcessTable.Fork: assumes a fresh kernel stack page in the same way, where the code goes on with address 0 when the kernel's ranges are used up, and a stack of no more than its sixteen reserved pages.
- ProcessMemory.ProcessTable.ForkThenRun: assumes the same as the fork it starts with.
- ProcessMemory.ProcessTable.AllocMem: has no roll-back after a failed page allocation, because the allocator halts the machine instead of answering 0.
- ProcessMemory.ProcessTable.Unmap: where the code reads the entry of a missing table, which faults inside the kernel, the model ends with `Panic`; this happens only for a range that is not in use and still has the owner's flag.
- ProcessMemory.ProcessTable.SystemSbrk: assumes that the break does not fall more than a page below the heap start, where `HeapBreaks.ResizedPages` shows that the call unmaps the image.
- ProcessMemory.ProcessTable.Serve: passes over requests outside what the callers keep to, such as a break that would reach the image, a second image, or a new process when no kernel stack page is left.
- ProcessMemory.ProcessTable.Safety: says of process areas who else sees a frame, as `ProcessMemory.ProcessTable.OwnersAlone` does of owned ranges; of stack pages this is said only where they are made.
- ProcessMemory.ProcessTable.Run: ends at the first request that spoils the invariant, because no promise is left to carry on from there.
- ProcessMemory.ProcessTable.HandleCopyOnWriteFault: assumes that the page's table exists, because reading a missing table faults again inside the handler.
- ProcessMemory.ProcessTable.LoadLoadSegment: assumes load segments between 4 MiB and the heap limit; writing the image bytes is not modelled.
- KernelStart.Load: assumes a kernel image that starts in the first kernel table, and modules that fit below the kernel area.
- KernelStart.StartAndRun: assumes a kernel image that starts in the first kernel table, and modules that fit below the kernel area; mapping the ramdisk before the loader's pages go away is not modelled.
- BootPaging.LoaderPaging.MapPage: ends where no frame is left for a table; the loader does not look and goes on with frame 0.
- BootPaging.LoaderPaging.CreateKernelTables: ends where no frame is left for a table, in the same way.
- BootPaging.LoaderPaging.RelocateModules: assumes that the relocated modules end below the kernel area; 32-bit wrap-around of the new addresses is not modelled.
- BootLoader.FindFreeMemory: a search that passes 4 GiB ends with `Wrapped`, where the loader goes on at address 0.
- ChunkAllocators.ChunkAllocator.Allocate: assumes that the request plus a header fits 32 bits, because the fit test is wrong beyond (`Chunks.FitTestExact`).
- KernelHeaps.KernelHeap.Allocate: assumes the same of the request.
- KernelHeaps.KernelHeap.ExpandHeap: assumes that the heap ends on a page boundary, as the loader leaves it.
- OpenFiles.FileSystem.CloneDescriptor: replacing the descriptor that is being cloned is excluded, because its content would be read after it was deleted.
- VirtualFiles.FileSystem.RequestDirectoryRefresh: ends at the first entry whose path overruns the buffer; what the code writes behind the buffer is not modelled.
- VirtualFiles.FileSystem.RequestFromRamdisk: an empty ramdisk is excluded, because the entry search dereferences its first entry.
- VirtualFiles.DiscoveryHandler.CheckWaiting: models the branch for a finished transaction, the only status the mount, ramdisk and pipe delegates set for a discovery; waiting and repeated transactions are not modelled.
- Vm86.Vm86Thread.HandleGpf: assumes that the run of prefix bytes before the instruction is finite; the recursion level does not wrap at 32 bits.
- Chains of list nodes, hash buckets and address-stack frames are sequences held in fields; node allocation and pointers between nodes are modelled only for the chunk heap's headers.
- Empty descriptor tables are created when a process is first asked for; the model takes a missing table for an empty one.
- Symbolic links, file contents, the tasked file-system delegate, and the ramdisk's own parsing and writing.
- The spawner's linker, message queues, ELF relocation, PCI, APIC, console and logging.

# Verified model of lbos

lbos is a small 32-bit x86 kernel. This project models four parts of it and proves what they promise:

1. **Frames, page tables and address spaces.** A bitmap hands out 4 KB frames of one physical memory. Page
   directories, page tables and user pages of all processes live in such frames. `create_process` loads an image,
   `sys_fork` copies an address space, and the page-fault handler adds zeroed pages.
2. **The process table.** 64 blocks, a ready list threaded through them, pids, and create, fork, exit, wait and
   schedule as steps.
3. **The initial RAM disk.** The packer on the host and the reader in the kernel, which share a format but no code.
4. **Strings, numbers, formatting and mounts.** The string routines, `vsnprintf`, the two decimal printers, and the
   mount table with its longest-prefix lookup.

## How it is built

Each part comes twice. Classes (`FrameAllocator`, `Mmu`, `Manager`, `Packer`, `Ramdisk`, `Vfs`) and array methods
(`Strncpy`, `NumberToString`, `Vsnprintf`, ...) work in place as the C code does, loop for loop; their
postconditions say that the new state is a function of the old one. Those functions, on plain values, are what the
theorems are about.

Physical memory is a sequence of 32768 frames of 1024 words; a byte view of it (`Bytes`) gives `memcpy` and `memset`.
A ledger `own` records for each frame handed out its one use: directory, table (d, i) or page (d, i, j).
`Ownership.Separated` says that all directories, tables and pages reachable in memory agree with that ledger. Frames
that an error path leaks stay in the ledger or are simply taken; nothing is assumed about them.
`Runs.Consistent` adds that processes have distinct directories and share the kernel's upper quarter, that the ready
list is well formed, that pids are in order, and that nobody has a terminated child to wait for. It holds at boot and
after every step, whatever arguments the step is given, so the theorems below hold in every state a run can reach.

`Processes` keeps the bitmap apart from memory. On the machine it lies in the last reserved frame and, past that, in
frames that are handed out. `KernelInMemory` has every operation again with each `alloc_frame` on the bitmap in memory.
`ShadowRuns` proves that runs of the two go alike while frames whose bits lie in the reserved frame are left, as
long as no module that is loaded lies among the bits that change; so what is proved of `Processes` holds of
`KernelInMemory`.

| file | content |
|---|---|
| `Machine`, `Bytes` | memory, words, bytes, `memcpy`, `memset` |
| `FramePool`, `PageFrameAllocator`, `BitmapInMemory` | the pool of frames, the bitmap that represents it, and that bitmap where it lies in memory |
| `PageTables`, `Ownership`, `AddingPages`, `Directories`, `Translation`, `DemandPaging` | page tables, separation, lookup, faults |
| `ForkCopy`, `ImageLoading`, `ImageContents`, `ImageOverlap`, `Stores` | copying an address space, loading a module, user stores |
| `Processes`, `Lifecycle`, `Isolation`, `Runs`, `Theorems` | the operations, their invariants, whole runs |
| `Spawning`, `Creation`, `Shortages` | what fork and create give, exactly when, and inputs at which something is missing |
| `KernelInMemory`, `BitmapShadow`, `ShadowSpaces`, `ShadowRuns`, `ImageInMemory` | the same operations with the bitmap in memory, their runs, and loading a module there |
| `UserMemory`, `UserAccess` | what a process reads over a run, and when an access goes through |
| `FirstEntry`, `Waiting` | where a dispatched process starts, and what becomes of processes that end |
| `MemoryManager`, `ProcessManager` | the in-place code |
| `InitrdImage`, `InitrdReader`, `InitrdLayout`, `Initrd`, `InitrdInMemory` | image format and packing, reading, the format in numbers, the in-place code, the image in memory during a run |
| `CStrings`, `Numbers`, `Formatting`, `FormatLetters` | strings, printers, `vsnprintf`, what each of its directives prints |
| `MountTable`, `VirtualFileSystem` | the mount table, the in-place code |

## What the code does that one might not expect

These are proved, not assumed; the member that says so is in brackets.

- When one frame is missing and the last page is alone in its table, `sys_fork` and `create_process` report success
  although that page is missing, because `map_page` drops a mapping silently when it cannot have a table
  [`ForkWithTooFewFrames`, `CreateWithTooFewFrames`; from boot: `ForkLosesThePage`, `CreateLosesThePage`].
- Nothing keeps a module's frames from being handed out while `create_process` loads it. A module that starts in the
  first free frame is overwritten by its own page directory [`ModuleBehindTheKernelIsLost`]. A module in the frame
  behind the kernel, which becomes the bitmap's, is cleared at initialisation, and what is there then is changed by the
  bits `create_process` sets [`ModuleOverTheBitmapIsLost`]. A page-aligned module arrives whole, whatever the free
  frames hold, exactly when none of its pages lies in a frame that is taken before it is copied and none reaches, in the
  bitmap's frame, the word with the bit of the first free frame [`ImageLoadsForAllContentsIff`].
- The bitmap needs 4096 words, but only the first 1024 are cleared and reserved. Once the first 8192 frames are taken,
  `alloc_frame` marks bits inside frames that belong to others, first in the directory of the first process
  [`AllocStaysInItsFrameIff`, `OverrunExample`; from boot: `OverrunFromBoot`].
- Nothing reserves the frames of the RAM disk's image either. It is safe for as long as none of them has been handed
  out [`ImageStaysInMemory`].
- `sys_wait` never succeeds. `schedule` never puts the outgoing process back, so each process is dispatched at most
  once, newest first [`DispatchIsAStack`, `DispatchedAtMostOnce`]; a child can only end after its parent has been
  dispatched for the last time. So `sys_wait` always fails [`WaitAlwaysFails`], no block is ever given back, and at
  most 64 processes come into being [`SixtyFourProcessesEver`].
- Nothing ever saves a running process's registers, and `sys_fork` copies the saved ones. So every process that is
  dispatched starts at the beginning: a forked child runs its program from USER_CODE_START with eax 0, it does not
  return from `fork` [`ProcessesStartAtTheBeginning`].
- `vsnprintf` writes past `size` when a number, an address or an unknown directive starts just before the limit
  [`TruncatesExactlyIff`, `NumbersRunOver`]; never by more than 10 characters [`Overrun`].
- The RAM disk keeps 31 characters of a name, so a longer name, or one equal to an earlier stored name, does not open
  its own file [`RoundTrip`, `LongNameIsNotFound`].
- A mount path of 256 or more characters can be mounted twice [`LongPathsMountTwice`]. Unmounting anything but one of
  the last two entries gives the entries after it wrong paths, and after unmounting the last but one the next mount
  overwrites a path [`UnmountIsFaithfulIff`, `FirstOfThreeUnmounted`, `NextMountOverwrites`].
- Reads, seeks and listings always ask the first mount point, whichever one the file was opened through
  [`FirstMountIsAskedForAll`].
- A process that exits while nobody is waiting to run stays current, and can exit again with another status
  [`ExitIsForGood`].

## Model

| member | source | states |
|---|---|---|
| Theorems.NoFrameIsShared | arch/x86/syscall.c:81-220 | after any run from boot of create, fork, exit, wait, schedule, faults and stores, every frame reachable from the user half of a live process is taken, is none of the kernel's, and is reachable in exactly one way: one process, one role, one place |
| Theorems.KernelIsUntouched | mem/paging.c:51-53 | no page-table, image, copy or user write of any run reaches a reserved frame, and every live directory has the kernel's entries in its upper quarter |
| Theorems.BystanderKeepsItsMemory | mem/process.c:207-237 | over any run in which a process is never current, it stays, and its translations and page contents stay as they were, whatever the others do |
| UserMemory.ReadsItsOwnStores | arch/x86/syscall.c:81-220 | over any run from a consistent state a live process stays, and the byte it reads at a user address is the one it had, overwritten by exactly the stores made while it was current: faults, forks, creations, exits and other processes change nothing |
| UserMemory.StepByte | arch/x86/syscall.c:81-220 | one step changes a byte of a process only if it is that process's own store to that address |
| UserMemory.ChildReadsItsOwnStores | arch/x86/syscall.c:117-142 | after a fork that has its frames, and any run, the child reads the parent's bytes as they were at the fork, overwritten by its own stores only |
| UserMemory.ProgramReadsItsOwnStores | mem/process.c:90-116 | after any run a process whose image was loaded reads the module at USER_CODE_START and zeros elsewhere, overwritten by its own stores only |
| UserAccess.StoreGoesIff | mem/page_frame_allocator.c:154-194 | a user store goes through if and only if its address is below 0xC0000000 and its page is there, or one frame is free and the page's table is there, or two frames are free |
| UserAccess.StoreReadsBack | mem/page_frame_allocator.c:166-194 | the processor's walk then reaches the address, and the byte stored is there |
| UserAccess.FaultGoesIff | mem/page_frame_allocator.c:154-201 | a fault is handled if and only if its address is below 0xC0000000, the processor's walk faults there, and a frame is free |
| UserAccess.FaultBringsThePage | mem/page_frame_allocator.c:166-194 | after a handled fault the walk reaches the lowest frame that was free, cleared, if there is a frame for the page's table too; otherwise it faults again |
| UserAccess.UserByteIsWalk | mem/paging.c:103-123 | what the theorems say a process reads is the byte at the address the processor's walk reaches, or 0 where it faults |
| UserAccess.AccessesGoInMemory | mem/page_frame_allocator.c:154-201 | with the bitmap in memory, while two of the first 8192 frames are free, every store below 0xC0000000 goes through, and every fault there on an absent page is handled |
| UserAccess.WaitStoresTheStatus | arch/x86/syscall.c:199-212 | sys_wait with a terminated child, in any state: with NULL it returns and memory stays; with a pointer to a word inside a page it returns exactly when that page is there or the frames for it are, and then the word is the child's status and no other byte any process reads has changed |
| Theorems.ProcessTableIsSound | mem/process.c:17-58 | after any run the ready list ends at NULL without repetition and visits exactly the READY slots, nobody is BLOCKED, the current process is RUNNING or TERMINATED, pids of live processes are distinct and below next_pid, every parent_pid is below its pid, no READY process is anyone's parent, and the current one has no terminated child |
| Theorems.DispatchIsAStack | mem/process.c:216-220 | the pids dispatched over any run are those a stack yields when creations and forks push and schedules and exits pop |
| Theorems.DispatchedAtMostOnce | mem/process.c:216-220 | over any run no pid is dispatched twice, and each dispatched pid was waiting or is new |
| Theorems.DispatchFromBoot | mem/process.c:207-237 | both of these for runs from boot |
| Theorems.BootConsistent | mem/process.c:46-58 | the state after initialisation satisfies the invariant |
| Theorems.RunConsistent | arch/x86/syscall.c:81-220 | the invariant holds after every run of steps, with any arguments |
| Runs.StepKeeps | arch/x86/syscall.c:81-220 | every step, with any arguments, keeps the invariant, moves the ready list by the step's event, frees no process, leaves all but the current one with the same memory, and the kernel's frames unwritten |
| Runs.ScheduleStep | mem/process.c:207-237 | schedule keeps the invariant, takes the front off the list, and leaves memory and every process where they are |
| Runs.ExitStep | arch/x86/syscall.c:165-184 | so does sys_exit, also when the list is empty or a process that has ended calls it again |
| Waiting.ExitEnds | arch/x86/syscall.c:165-184 | sys_exit field by field: the block is TERMINATED with the status in eax and otherwise as it was, the first of the list becomes current and RUNNING, and no other block changes |
| Waiting.ExitIsForGood | arch/x86/syscall.c:178-179 | after sys_exit and any run that block is TERMINATED with its pid; it has that status, if another process was READY or until it exits again |
| Waiting.EndedForGood | arch/x86/syscall.c:178-179 | over any run a TERMINATED process stays so, under its pid, and with its whole block if nobody exits |
| Spawning.ForkCopiesExactly | arch/x86/syscall.c:95-162 | with a slot and 1 + pages + tables frames free, fork returns the new pid, uses exactly that many frames, and the child maps exactly the parent's pages with the same flags and equal contents, every existing space unchanged |
| Spawning.ForkIsFaithfulIff | arch/x86/syscall.c:95-162 | a runnable child that mirrors the parent comes out if and only if that many frames are free |
| Spawning.ForkWithTooFewFrames | arch/x86/syscall.c:126-138 | with fewer frames fork fails, except exactly one short with the last page alone in its table: then it succeeds and that page is missing |
| Spawning.FailedForkIsHarmless | arch/x86/syscall.c:95-131 | on every failure return all spaces, the list, the current process and every other block are unchanged, the slot is FREE, and no frame that was taken is written or given back |
| Spawning.ForkWritesNewFrames | arch/x86/syscall.c:104-142 | fork writes only frames it has just taken |
| Creation.CreateMapsImage | mem/process.c:80-116 | with a slot and the frames, the process is made at exactly that cost with exactly the image's pages mapped, wherever the module lies |
| ImageInMemory.LoadsImageInMemory | mem/process.c:80-116 | with the bitmap in memory: if no page of the module lies in a frame taken before it is copied, or in the bitmap's frame from the word with the first free frame's bit on, the pages hold the module's bytes as they were before the call, and then zeros |
| ImageInMemory.OutOfReachLoads | mem/process.c:90-116 | that is so when every frame of the module is taken already or has as many free frames below it as the call takes, and none is the bitmap's |
| ImageInMemory.ImageLoadsForAllContentsIff | mem/process.c:90-116 | with the bitmap in memory: a page-aligned module is loaded right, whatever the free frames hold, if and only if none of its pages lies in the frame of the directory, of a page before it, or of a table made up to it, and none reaches, in the bitmap's frame, the word with the bit of the first free frame |
| ImageInMemory.BitmapPageIsLost | mem/page_frame_allocator.c:106-114 | a page that does reach that word is not what it was before the call: it has the bit of the directory's frame |
| ImageInMemory.LoadPagesSee | mem/process.c:90-116 | loading a module with a page in the bitmap's frame goes as if that frame had held all along what the bitmap is when the page is copied |
| ImageInMemory.NobodysPageArrives | mem/process.c:90-116 | a page of the module in a frame that is taken and in no address space arrives, whatever becomes of the others |
| ImageInMemory.CreateSameSpace | mem/process.c:60-162 | for a module apart from the bits that change, create_process gives the same address space and process table with the bitmap in memory as with the bitmap apart |
| Creation.UnsafeModuleIsLost | mem/process.c:90-116 | if a page of an aligned module lies in a free frame that is taken before the page is copied, there are contents of free frames with which the image is wrong |
| Creation.ImageReadsBack | mem/process.c:90-116 | looked up through the new page tables, address USER_CODE_START + x holds module byte x, or 0 past the end |
| Creation.CreateWithTooFewFrames | mem/process.c:91-99 | with fewer frames creation fails, except exactly one short with a last page that starts a table: then the process lacks that page |
| Creation.CreateNeedCounts | mem/process.c:80-90 | the cost is one directory, ceil(size / 4096) pages, and the tables they span |
| Creation.KernelProcessIff | mem/process.c:164-205 | create_kernel_process succeeds if and only if a slot and a frame are free; it takes that frame, and its process has no user page |
| Shortages.ModuleBehindTheKernelIsLost | mem/process.c:70-116 | from boot, with frames to spare, a module in the first free frame: create_process reports success and the process does not hold the module |
| Shortages.ModuleOverTheBitmapIsLost | mem/page_frame_allocator.c:83-98 | from boot, with frames to spare, a module in the frame of the bitmap: the loader's bytes are cleared, and create_process reports success for a process that does not even hold what was there when it was called |
| Shortages.CreateLosesThePage | mem/process.c:91-99 | from boot with two frames free, create_process makes a process without its only page |
| Shortages.ForkLosesThePage | arch/x86/syscall.c:126-138 | from boot with five frames free, a process that is created, dispatched and forks gets a pid for a child that lacks the page |
| FirstEntry.ProcessesStartAtTheBeginning | arch/x86/syscall.c:112-158 | after any run from boot every READY process, when switched to, enters at USER_CODE_START in user mode on an empty user stack, or at the start of a kernel function; never in the middle of its program |
| FirstEntry.CreatedEntersUser | mem/process.c:120-155 | what switch_to_process loads from a created process and iret pops from its kernel stack: first instruction of the image, user segments, interrupts on, empty user stack, zero registers, its own directory |
| FirstEntry.CreatedStackFill | mem/process.c:23 | below the words iret takes the new kernel stack is filled with 0xCD |
| FirstEntry.CreatedEntersKernel | mem/process.c:184-198 | the same for a kernel process: its function, the kernel's segment, and kernel_idle as the address the function returns to |
| FirstEntry.ForkedEntersSavedContext | arch/x86/syscall.c:112-154 | a forked child enters with the parent's saved context, eax 0 and its own directory |
| FirstEntry.StepAtStart | arch/x86/syscall.c:81-220 | every step keeps all saved contexts and kernel stacks at their beginnings |
| Waiting.WaitAlwaysFails | arch/x86/syscall.c:186-204 | after any run from boot, sys_wait returns -1 and changes nothing, whatever address it is given |
| Waiting.SixtyFourProcessesEver | mem/process.c:17-29 | over any run from boot at most 64 processes come into being, however many end; after the sixty-fourth every creation and fork fails and changes nothing |
| Waiting.ZombieKeepsItsBlock | mem/process.c:31-39 | over any run a terminated process that is not current keeps its whole block for good |
| Waiting.StepBusy | mem/process.c:17-29 | a step makes one more block busy exactly when it puts a process on the list, and never frees one |
| Stores.StoreIsPrivate | mem/page_frame_allocator.c:166-194 | a byte stored at a user address, its page brought in if need be, changes that byte of the storing process and no other, no byte any other process reads, and no kernel entry |
| Isolation.CreateIsolated | mem/process.c:60-162 | create_process keeps processes apart and unchanged, on success and on every failure |
| Isolation.CreateKernelIsolated | mem/process.c:164-205 | so does create_kernel_process |
| Isolation.ForkIsolated | arch/x86/syscall.c:81-163 | so does fork, leaked frames and all |
| Isolation.FewerProcesses | arch/x86/syscall.c:212-214 | freeing blocks keeps the remaining processes apart |
| Isolation.OwnMemoryChanged | mem/page_frame_allocator.c:166-194 | work confined to the current process's frames keeps everyone apart and every other space the same |
| Lifecycle.ChainUnique | mem/process.c:157-159 | the list threaded through the blocks determines one order |
| Lifecycle.CreateTakes | mem/process.c:60-162 | create_process takes the first free slot and the next pid; it ends READY at the head, or FREE again |
| Lifecycle.CreateKernelTakes | mem/process.c:164-205 | the same for create_kernel_process |
| Lifecycle.ForkTakes | arch/x86/syscall.c:88-163 | the same for fork, with the parent's pid noted even when it fails |
| Lifecycle.WaitFindsNobody | arch/x86/syscall.c:199-204 | where no terminated process has the current one as its parent, wait fails and changes nothing |
| Lifecycle.TakesSlotKeepsChildless | arch/x86/syscall.c:102-108 | creation and fork leave no READY process with a child and the current one with no terminated child, failed forks included |
| Lifecycle.DispatchKeepsChildless | mem/process.c:216-220 | so does dispatch |
| Lifecycle.WaitReaps | arch/x86/syscall.c:186-220 | the call by itself, in any state: it frees the first terminated child and returns 0, or changes nothing and fails |
| Lifecycle.WaitSparesCaller | arch/x86/syscall.c:199-214 | wait never frees the block of its caller |
| Lifecycle.TakesSlotKeeps | mem/process.c:157-159 | creation and fork keep the list well formed, pushing on its front or not at all |
| Lifecycle.TakesSlotKeepsPids | mem/process.c:20-21 | creation and fork keep pids distinct and parents below children, stale parents of failed forks included |
| Lifecycle.DispatchKeeps | mem/process.c:216-220 | dispatch keeps the list well formed, taking its front off |
| Lifecycle.ReapKeeps | arch/x86/syscall.c:212-214 | the call by itself, in any state: clearing a terminated child keeps list and pids well formed |
| Translation.LookupIsHardwareWalk | mem/paging.c:103-123 | for user addresses get_physical_address agrees with the processor's two-level walk with large pages enabled, and is 0 exactly for a page fault |
| Translation.LookupReadsView | mem/paging.c:103-123 | it is a lookup in the finite map from user pages to entries |
| Translation.MapPageSetsOneKey | mem/paging.c:58-83 | map_page sets one key of one directory's map, or changes no map when no table can be had |
| Translation.UnmapPageRemovesOneKey | mem/paging.c:85-101 | unmap_page removes one key of one directory's map |
| Translation.UnmapUndoesMap | mem/paging.c:58-101 | mapping an absent page and unmapping it restores the map |
| Ownership.MapPageAt | mem/paging.c:58-83 | every entry of every directory after map_page: the one entry set, a new table's, or as before |
| Ownership.MapPageKeeps | mem/paging.c:58-83 | map_page of a frame not in use keeps directories, tables and pages of all processes apart |
| Ownership.EnsureTableKeeps | mem/paging.c:64-75 | the table map_page adds is apart from everything else and maps nothing |
| Ownership.OthersUntouched | mem/paging.c:58-83 | work confined to one directory's frames leaves every other address space as it was |
| Ownership.PageStays | mem/paging.c:58-83 | a mapped page keeps its contents while more is added to its space |
| AddingPages.AddPageKeeps | mem/page_frame_allocator.c:166-185 | taking a frame, mapping it and filling it keeps all apart and changes one entry at most |
| AddingPages.AddPageCost | mem/paging.c:64-69 | it uses one frame, and a second one exactly when the table is new and can be had |
| Directories.CreateDirectoryFresh | mem/paging.c:40-56 | a new directory takes one frame nobody uses, maps no user page and has the kernel's entries; failure means no frame is free and changes nothing |
| Directories.CreateDirectoryKeeps | mem/paging.c:40-56 | it is apart from everything there was |
| DemandPaging.FaultIsInvisible | mem/page_frame_allocator.c:166-194 | a handled not-present fault maps at most the faulting page, to the frame taken, changes no other translation, and no word any process reads when absent pages read as zero |
| DemandPaging.HandlesIff | mem/page_frame_allocator.c:154-201 | the handler resumes if and only if the address is below 0xC0000000, the page was not present, and a frame is free |
| ForkCopy.CopySpaceKeeps | arch/x86/syscall.c:117-142 | however far the copy gets, everything stays apart, the parent is unchanged and only the child grows |
| ForkCopy.CopyTableMirrors | arch/x86/syscall.c:121-140 | with frames enough the inner loop mirrors every page of a table at the exact cost |
| ForkCopy.CopySpaceMirrors | arch/x86/syscall.c:117-142 | with frames enough the outer loop mirrors every page of the space at the exact cost |
| ForkCopy.CopySpaceShort | arch/x86/syscall.c:126-138 | with too few, it fails, or loses a page in the one case named above |
| ImageLoading.CopyStaysInModule | mem/process.c:104-106 | the last copy ends at the module's end, the others are whole pages |
| ImageLoading.LoadPagesKeeps | mem/process.c:90-116 | however far loading gets, it only adds the image's own pages to the new directory |
| ImageLoading.LoadPagesMaps | mem/process.c:90-116 | with frames enough every page is mapped at the exact cost |
| ImageContents.LoadPageLeaves | mem/process.c:91-113 | loading a page writes only the frame taken for it, a table it makes, and the directory's own frames |
| ImageOverlap.LoadPagesInStep | mem/process.c:90-116 | two memories that differ only in a frame taken before the page in it is copied are loaded to the same end |
| ImageLoading.LoadPagesShort | mem/process.c:91-99 | with too few the loop fails, or loses the last page in the one case named above |
| ImageLoading.LoadNeedCounts | mem/process.c:80-90 | the frames needed, in closed form |
| FramePool.NthTakenIs | mem/page_frame_allocator.c:106-114 | the n-th of several allocations takes the free frame that has n free frames below it |
| FramePool.AllocTakesLowest | mem/page_frame_allocator.c:106-114 | while frame 0 is reserved, allocation returns the lowest free frame and takes only it, and 0 exactly when none is free |
| PageFrameAllocator.BitUpdates | mem/page_frame_allocator.c:21-37 | setting or clearing a bit of a word affects that bit only |
| PageFrameAllocator.MarkedIsUsed | mem/page_frame_allocator.c:21-31 | setting or clearing a frame's bit takes or frees that frame and no other |
| PageFrameAllocator.BitmapIsASet | mem/page_frame_allocator.c:106-121 | over any run that frees only frames it was handed, taken means reserved or held, and the next allocation is the lowest frame that is neither, or 0 when there is none |
| PageFrameAllocator.ReservedCoversKernel | mem/page_frame_allocator.c:76-98 | the reserved frames cover all memory up to the end of the kernel and exactly one frame of bitmap after it |
| PageFrameAllocator.FrameAllocator.constructor | mem/page_frame_allocator.c:76-98 | exactly the frames below the end of kernel and bitmap are reserved, frame 0 among them |
| PageFrameAllocator.FrameAllocator.SetBit | mem/page_frame_allocator.c:21-25 | takes one frame |
| PageFrameAllocator.FrameAllocator.ClearBit | mem/page_frame_allocator.c:27-31 | frees one frame |
| PageFrameAllocator.FrameAllocator.TestBit | mem/page_frame_allocator.c:33-37 | tells whether a frame is taken |
| PageFrameAllocator.FrameAllocator.AllocFrame | mem/page_frame_allocator.c:106-114 | the scan allocates as the pool does |
| PageFrameAllocator.FrameAllocator.FreeFrame | mem/page_frame_allocator.c:116-121 | frees the frame of an address inside memory, and nothing for any other |
| PageFrameAllocator.FrameAllocator.IsFrameAllocated | mem/page_frame_allocator.c:123-129 | frames outside memory count as taken |
| BitmapInMemory.AllocStaysInItsFrameIff | mem/page_frame_allocator.c:76-98 | with the bitmap where it is, alloc_frame leaves all memory but the reserved frame alone if and only if one of the first 8192 frames is free, or none at all is |
| BitmapInMemory.BitAddress | mem/page_frame_allocator.c:21-37 | the word for frame f lies 4 * (f / 8) bytes from the start of the bitmap |
| BitmapInMemory.BitSetIff | mem/page_frame_allocator.c:33-37 | and its bit is number f mod 8 |
| BitmapInMemory.MarkedFrames | mem/page_frame_allocator.c:76-98 | after initialisation exactly the first frames read as taken, and the rest of memory is as it was |
| BitmapInMemory.InitClearsTheFrame | mem/page_frame_allocator.c:83 | and every word of the bitmap's frame without a bit of theirs is zero |
| BitmapInMemory.OverrunFromBoot | mem/page_frame_allocator.c:106-114 | from boot the first frame handed out is the one behind the bitmap's; once as many frames have been handed out as were free among the first 8192, whatever was written elsewhere, the next alloc_frame sets the present bit of the first entry of that frame, the first directory |
| BitmapInMemory.OverrunExample | mem/page_frame_allocator.c:83-87 | with those frames taken, and the first entry of the directory in the next frame not present, alloc_frame makes that entry present |
| BitmapInMemory.MemoryBitmapIsThePool | mem/page_frame_allocator.c:106-114 | while one of those frames is free, allocation on the bitmap in memory and on the pool return the same frame and stay in agreement |
| BitmapInMemory.MemoryBitmapRunsLikeThePool | mem/page_frame_allocator.c:106-114 | over any run of allocations and of writes elsewhere in which each allocation finds such a frame free, the bitmap in memory and the pool hand out the same frames and stay in agreement |
| ShadowRuns.RunsWithTheBitmapInMemory | mem/page_frame_allocator.c:76-114 | from boot, a run of the kernel with its bitmap in memory that ends with two of the first 8192 frames free, its modules apart from the bits that change, gives the process table, the address spaces and the page contents of the kernel with the bitmap apart; memory is the same but for the bitmap's frame, and the bits there are the pool |
| ShadowRuns.NoFrameIsSharedInMemory | arch/x86/syscall.c:81-220 | so after such a run, too, every frame that a process reaches is none of the kernel's and is reached in exactly one way |
| ShadowRuns.RunShadow | arch/x86/syscall.c:81-220 | the same from any consistent state |
| ShadowRuns.StepShadow | arch/x86/syscall.c:81-220 | each step goes alike, and stops the machine in the one exactly when in the other |
| ShadowRuns.CreateShadow | mem/process.c:60-162 | create_process does the same with the bitmap in memory, if each of its allocations finds one of the first 8192 frames free |
| ShadowRuns.ForkShadow | arch/x86/syscall.c:81-163 | so does sys_fork |
| ShadowSpaces.CopySpaceShadow | arch/x86/syscall.c:117-142 | so does its copy loop |
| ShadowSpaces.FaultShadow | mem/page_frame_allocator.c:154-201 | so does the page-fault handler |
| ShadowSpaces.PutByteShadow | mem/page_frame_allocator.c:166-194 | so does a user store, with the fault it may take |
| BitmapShadow.MapPageShadow | mem/paging.c:58-83 | so does map_page, which finds every table outside the bitmap's frame |
| BitmapShadow.LoadPagesShadow | mem/process.c:90-116 | so does the loading loop |
| BitmapShadow.EnoughCovers | mem/process.c:90-116 | the loading loop's allocations all find one of the first 8192 frames free if there are as many as it takes |
| Bytes.CopyBytesAt | lib/string.c:14-21 | memcpy of ranges apart: every byte afterwards |
| Bytes.SetBytesAt | lib/string.c:6-12 | memset: every byte afterwards |
| Bytes.CopyBytesIsFrame | lib/string.c:14-21 | a 4096-byte memcpy to a frame copies the frame |
| Bytes.SetBytesIsZeroFrame | lib/string.c:6-12 | a 4096-byte memset to 0 clears the frame |
| MemoryManager.Mmu.Memcpy | lib/string.c:14-21 | the byte loop on physical memory |
| MemoryManager.Mmu.Memset | lib/string.c:6-12 | the byte loop on physical memory |
| MemoryManager.Mmu.CreatePageDirectory | mem/paging.c:40-56 | memset and copy loop give the directory the theorems speak of |
| MemoryManager.Mmu.MapPageAt | mem/paging.c:58-83 | the in-place code does what MapPage says, table failure included |
| MemoryManager.Mmu.UnmapPageAt | mem/paging.c:85-101 | the in-place code does what UnmapPage says |
| MemoryManager.Mmu.PhysicalAddress | mem/paging.c:103-123 | the two reads return what GetPhysicalAddress says |
| MemoryManager.Mmu.PageFaultHandler | mem/page_frame_allocator.c:154-201 | the in-place code does what HandleFault says; kernel addresses, protection faults and an empty pool stop the machine |
| ProcessManager.Manager.constructor | mem/process.c:46-58 | the table after initialisation |
| ProcessManager.Manager.AllocatePcbAndPid | mem/process.c:17-29 | the scan takes the first FREE slot, or changes nothing |
| ProcessManager.Manager.GetZombieProcessForParent | mem/process.c:31-39 | the scan finds the first terminated child |
| ProcessManager.Manager.LoadOnePage | mem/process.c:91-115 | one round of the loading loop |
| ProcessManager.Manager.CreateUserProcess | mem/process.c:60-162 | the in-place code does what CreateProcess says, block, stack and list included |
| ProcessManager.Manager.CreateKernelThread | mem/process.c:164-205 | the in-place code does what CreateKernelProcess says |
| ProcessManager.Manager.ScheduleNext | mem/process.c:216-220 | the in-place code does what Schedule says |
| ProcessManager.Manager.CopyOnePage | arch/x86/syscall.c:122-139 | one round of the inner loop |
| ProcessManager.Manager.CopyOneTable | arch/x86/syscall.c:121-140 | the inner loop |
| ProcessManager.Manager.CopyAddressSpace | arch/x86/syscall.c:117-142 | the outer loop |
| ProcessManager.Manager.SysFork | arch/x86/syscall.c:81-163 | the in-place code does what Fork says, on every return path |
| ProcessManager.Manager.SysExit | arch/x86/syscall.c:165-184 | the in-place code does what Exit says |
| ProcessManager.Manager.SysWait | arch/x86/syscall.c:186-220 | the in-place code does what Wait says |
| ProcessManager.Manager.StoreByteInUserMemory | mem/page_frame_allocator.c:166-194 | a byte stored through the current page tables, with the fault it may take |
| ProcessManager.Manager.StoreInUserMemory | arch/x86/syscall.c:207-210 | the store of the status, byte by byte, at any address |
| ProcessManager.Manager.PageFault | mem/page_frame_allocator.c:131-202 | a fault is handled in the current process's directory, and exactly when its address is below 0xC0000000, its page was not present and a frame is free |
| CStrings.CompareZero | lib/string.c:54-60 | the difference computed is 0 exactly for equal texts |
| CStrings.CompareOrders | lib/string.c:54-60 | it is negative exactly when the first text comes before the second |
| CStrings.CompareAt | lib/string.c:54-70 | the value is the difference of the characters at the first place where the texts differ, 0 standing for the end |
| CStrings.Strlen | lib/string.c:23-29 | the length of the text |
| CStrings.Strcmp | lib/string.c:54-60 | the difference at the first place where the texts differ, 0 exactly when they are equal, reading no further than a terminator |
| CStrings.Strncmp | lib/string.c:62-70 | the same for the first count characters |
| CStrings.Strcpy | lib/string.c:31-35 | the text and its terminator at the start of the buffer, the rest as before |
| CStrings.Strncpy | lib/string.c:37-52 | the text cut to count characters and padded with zeros to count, the rest as before |
| CStrings.PaddedAt | lib/string.c:37-52 | what strncpy writes, character by character |
| CStrings.MatchLength | lib/string.c:79-87 | the inner scan stays within both terminators and reaches the needle's end exactly at an occurrence |
| CStrings.Strstr | lib/string.c:72-96 | the leftmost occurrence, or NULL exactly when there is none |
| Numbers.DecimalParses | lib/string.c:98-124 | parsing the decimal text of a number returns the number |
| Numbers.HexParses | lib/string.c:98-124 | the hexadecimal text parses to the number modulo 2^32 |
| Numbers.DigitsAreDigits | lib/string.c:109-113 | only digits of the base, and no leading zero |
| Numbers.NumberTextLength | drivers/serial.c:57-60 | at most 11 characters in base 10 and 8 in base 16, so 12 bytes hold a decimal and its NUL |
| Numbers.LowFirstReversed | lib/string.c:109-123 | digits produced from the low end and reversed are the digits |
| Numbers.NumberToString | lib/string.c:98-124 | the push-then-pop printer writes that text at pos and nothing else |
| Numbers.NumToDecimal | drivers/serial.c:22-55 | the printer that reverses in place writes the same decimal text and a NUL |
| Numbers.PushDecimal | drivers/serial.c:22-42 | digits and sign are in the buffer in reverse, at most 11 of them |
| FormatLetters.HexCase | drivers/serial.c:5-14 | fixed-width digits are all upper case or all lower case, as asked |
| Numbers.NumToHex | drivers/serial.c:5-14 | num_to_hex writes eight digits that parse back to the number, and a NUL |
| Formatting.TruncatesExactlyIff | lib/string.c:137-199 | the output is the full expansion cut off at size - 1, and within size - 1, if and only if no number, address or unknown directive straddles that limit |
| Formatting.TextIsCutToSize | lib/string.c:167-181 | so formats of literals, %s and %c are always cut off exactly and fit a buffer of size |
| Formatting.Overrun | lib/string.c:143-193 | for all formats the returned length is at most size + 9 |
| Formatting.NumbersRunOver | lib/string.c:147-150 | %d of the least number with size 2 does straddle |
| Formatting.PointerParses | lib/string.c:126-135 | the digits of an address parse back to it |
| Formatting.PointerToString | lib/string.c:126-135 | 0x and eight digits |
| Formatting.PutString | lib/string.c:167-174 | the %s loop writes the text up to the limit |
| Formatting.PutDirective | lib/string.c:146-189 | each directive writes its text |
| Formatting.Vsnprintf | lib/string.c:137-199 | the loop writes exactly the output described, then a NUL, and returns its length |
| FormatLetters.DecimalLetters | lib/string.c:147-154 | %d, %i and %u print the number in decimal |
| FormatLetters.HexLetters | lib/string.c:156-159 | %x and %X print the number modulo 2^32 in lower-case base 16, without leading zeros |
| FormatLetters.PointerLetter | lib/string.c:161-163 | %p prints 0x and eight lower-case digits that parse back to the address |
| FormatLetters.StringLetter | lib/string.c:165-172 | %s prints the text, and (null) for NULL |
| FormatLetters.CharacterLetter | lib/string.c:174-178 | %c prints the character |
| FormatLetters.OtherLetters | lib/string.c:184-187 | any other letter is printed behind its percent sign and takes no argument |
| FormatLetters.DoublePercent | lib/string.c:144 | a percent sign before another one stands for itself, and the other one starts a directive |
| FormatLetters.FormatsConcatenate | lib/string.c:143-193 | two formats put together print one after the other, each with its own arguments |
| InitrdImage.ImageDecodes | fs/initrd.c:22-24 | reading an image back gives the header it was written from, and the data after it |
| InitrdImage.PackPlacesFiles | tools/create_initrd.c:42-79 | every readable file's contents lie where its header says, offsets being sums of the sizes before; unreadable files are skipped |
| InitrdLayout.PackedLayout | tools/create_initrd.c:42-119 | every byte of a packed image in numbers: signature, magic 0xBF at 8, count at 12, from 16 on headers of 48 bytes with name, size, offset, type 0 and permissions 1, the data from 3088 on, file after file |
| InitrdLayout.BaseNameIs | tools/create_initrd.c:107-112 | the name given to a file is what follows the last slash of its path |
| InitrdLayout.ReadyIff | fs/initrd.c:22-67 | the reader takes a module for an image if and only if it starts with INITRD and has the magic number at 8 |
| InitrdReader.ReadIsSlice | fs/initrd.c:128-147 | a read returns the slice at the position, cut at the end of the file, and moves the position behind it |
| InitrdReader.ChunksDoNotMatter | fs/initrd.c:128-147 | reads of any sizes together give what one read of their sum gives |
| InitrdReader.PositionStaysInFile | fs/initrd.c:128-172 | after any mix of reads and seeks the position is inside the file and the next read is the slice there |
| InitrdReader.SeekThenRead | fs/initrd.c:128-172 | a seek is accepted if and only if the offset is at most the file's size, and then the next read starts there; without such a file reads and seeks return -1 and change nothing |
| InitrdReader.ListNamesAll | fs/initrd.c:174-192 | a listing names every file once, in order, and rewinds |
| InitrdReader.RootLists | fs/initrd.c:96-105 | the descriptor from opening "/", read as a directory until 0, names every file once, in order; reading or seeking it gives -1 |
| InitrdReader.OthersListNothing | fs/initrd.c:174-192 | a descriptor of anything else lists nothing and leaves the cursor alone |
| InitrdReader.PackedListing | fs/initrd.c:174-192 | listing the root of a packed image gives the stored names of the files in the order they were packed |
| InitrdReader.PackedFilesAreFiles | fs/initrd.c:107-121 | a packed file that opens by its name opens at its beginning, as a file with its size, for reading, and lists nothing |
| InitrdReader.LeadingSlashIsDropped | fs/initrd.c:83-85 | one leading slash makes no difference |
| InitrdReader.PackReads | fs/initrd.c:22-67 | a packed image passes initialisation and is well formed |
| InitrdReader.RoundTrip | tools/create_initrd.c:81-125 | opening "/" and the name of a packed file reaches that file if and only if the name has at most 31 bytes and is not the stored name of an earlier one; then its contents come back, at once or in chunks |
| InitrdReader.LongNameIsNotFound | tools/create_initrd.c:53-54 | a file with a name of 32 bytes is packed and not found |
| InitrdReader.DistinctNamesComeBack | tools/create_initrd.c:81-125 | so distinct names of at most 31 bytes all come back |
| InitrdInMemory.UntakenFramesStay | mem/page_frame_allocator.c:106-114 | over any run, no reserved frame is written, and none that is free when the run ends |
| InitrdInMemory.ImageStaysInMemory | fs/initrd.c:67 | so from boot, with the bitmap in memory, the image's bytes are what the loader left, if none of its frames has been handed out or is the bitmap's |
| InitrdInMemory.FilesComeBackAfterRuns | kmain.c:111-123 | and then the files packed into it are found and read back as before the run |
| Initrd.FileName | tools/create_initrd.c:107-112 | the part of a path after its last slash |
| Initrd.Packer.constructor | tools/create_initrd.c:93-103 | signature and empty header |
| Initrd.Packer.AddFile | tools/create_initrd.c:42-79 | header table and output after one file |
| Initrd.Packer.AppendContents | tools/create_initrd.c:72-76 | copying in 1024-byte pieces appends the contents |
| Initrd.Packer.Finish | tools/create_initrd.c:118-119 | the finished header in place of the first one |
| Initrd.PackArguments | tools/create_initrd.c:105-119 | the whole program writes the image Pack describes |
| Initrd.Ramdisk.FindFile | fs/initrd.c:78-94 | the first file of that name |
| Initrd.Ramdisk.OpenFile | fs/initrd.c:96-121 | the descriptor Open describes, untouched on failure |
| Initrd.Ramdisk.ReadFile | fs/initrd.c:128-147 | result, bytes and position as Read describes, the rest of the buffer as before |
| Initrd.Ramdisk.SeekFile | fs/initrd.c:157-172 | as Seek describes |
| Initrd.Ramdisk.ReadDirectory | fs/initrd.c:174-192 | as ReadDir describes, the test for a directory and the cursor included |
| MountTable.BestIsUnique | fs/vfs.c:71-100 | with distinct paths the entry found is longer than every other that covers the path |
| MountTable.MatchesIff | fs/vfs.c:78-95 | a mount path covers itself and itself followed by a slash and anything; "/" covers everything that starts with a slash |
| MountTable.BestCovers | fs/vfs.c:71-100 | NULL exactly when no entry covers the path |
| MountTable.OrderDoesNotMatter | fs/vfs.c:71-100 | tables with the same paths, in any order, find the same path |
| MountTable.MountStores | fs/vfs.c:20-49 | a mount is refused exactly when the table is full or the path is in it; otherwise the new entry has the first 255 characters of path and device, the operations and the data given, and every other entry keeps all four |
| MountTable.MountsHold | fs/vfs.c:20-49 | after any sequence of mounts the table holds, in order, path, device, operations and data of the requests granted |
| MountTable.LookupFindsTheRequest | fs/vfs.c:71-100 | so a lookup finds the entry of a granted request that covers the path, a longest one, with its device, operations and data, and nothing exactly when none covers it |
| MountTable.MountKeepsDistinctIff | fs/vfs.c:26-36 | a mount keeps the paths distinct if and only if the 255 characters kept are not mounted yet; always for paths of at most 255 |
| MountTable.LongPathsMountTwice | fs/vfs.c:26-36 | a longer path can be mounted twice |
| MountTable.MountsStayDistinct | fs/vfs.c:20-49 | over any sequence of mounts of paths of at most 255 characters the paths stay distinct |
| MountTable.MountRedirectsItsPathsOnly | fs/vfs.c:20-49 | a mount takes over exactly the paths it covers that no longer one covered |
| MountTable.RootTakesAbsolutePaths | fs/vfs.c:78-84 | with only "/" mounted, absolute paths find it and others find nothing |
| MountTable.UnmountRefusesIff | fs/vfs.c:51-69 | unmounting fails if and only if the path is not mounted, and then changes nothing |
| MountTable.UnmountedPaths | fs/vfs.c:51-64 | the path and the device every remaining entry reads after an unmount, and the operations and data it has |
| MountTable.FirstOfThreeUnmounted | fs/vfs.c:51-64 | three mounts, the first unmounted: both entries left have the path of the third |
| MountTable.UnmountIsFaithfulIff | fs/vfs.c:51-64 | the other mounts keep their paths if and only if one of the last two entries is unmounted |
| MountTable.UnmountingTheLastIsClean | fs/vfs.c:51-64 | unmounting the last entry leaves every entry its own buffers |
| MountTable.NextMountOverwrites | fs/vfs.c:33-45 | after unmounting the last but one, the next mount changes another entry's path too |
| VirtualFileSystem.KernelOpensInitrd | fs/vfs.c:110-123 | with the initrd at "/", opening an absolute path is the initrd's open, and other paths do not open |
| VirtualFileSystem.KernelListsInitrd | kmain.c:48-60 | with the initrd at "/", opening "/" and reading the directory until 0 names every file of the image once, in order; reading it as a file gives -1 |
| VirtualFileSystem.FirstMountIsAskedForAll | fs/vfs.c:102-108 | with a file system without operations mounted first, files open through the initrd at "/", and every read, seek and listing of theirs fails |
| VirtualFileSystem.Vfs.constructor | fs/vfs.c:14-18 | an empty table |
| VirtualFileSystem.Vfs.MountFs | fs/vfs.c:20-49 | table and buffers after a mount, unchanged on failure |
| VirtualFileSystem.Vfs.UnmountFs | fs/vfs.c:51-69 | table and buffers after the shifting loop, unchanged when nothing is found |
| VirtualFileSystem.Vfs.FindMountPoint | fs/vfs.c:71-100 | the first of the longest entries that cover the path, or NULL when none does, every read inside the path's string |
| VirtualFileSystem.Vfs.OpenFile | fs/vfs.c:110-123 | the file system found opens the whole path; failure leaves the descriptor alone |
| VirtualFileSystem.Vfs.ReadFile | fs/vfs.c:140-153 | the first mount point's read, or -1 |
| VirtualFileSystem.Vfs.SeekFile | fs/vfs.c:170-183 | the first mount point's seek, or -1 |
| VirtualFileSystem.Vfs.ReadDirectory | fs/vfs.c:185-198 | the first mount point's readdir, or -1 |

## Left out

- The bitmap inside physical memory, in the in-place classes and the theorems on `Processes`: there the bitmap is an array of its own. `ShadowRuns` carries them over to runs on the bitmap in memory that end with two of the first 8192 frames free and load no module from among the bits that change. Beyond that `BitmapInMemory` says when and where `alloc_frame` first writes a frame that is not its own; what the kernel does from then on is not modelled.
- CreateLoadsImage: this lemma of `Creation`, like `OutOfReachIsSafe`, `LoadsForAllContentsIff` there and `LoadPagesImage` in `ImageContents`, speaks of the bitmap apart from memory; `ImageInMemory` states the result for the bitmap in memory.
- `phys_to_virt` and `virt_to_phys` are the identity, and the direct map reaches all of memory; `init_paging` maps only 4 MB of it. The kernel page directory is a constant, as nothing writes it after start-up.
- Virtual addresses from 0xC0000000 on in `map_page` and `unmap_page`; nothing in the kernel passes one.
- Preemption: every operation is one atomic step. Gates are trap gates, so interrupts stay enabled on the real machine.
- Accessed and dirty bits, which the processor sets in entries, and cached translations (`invlpg`).
- Memory no chip answers reads as all ones and ignores writes; the theorems never depend on it.
- The TSS and the trap frame of a running process: dispatch is what `schedule` does to the process table and what `switch_to_process` loads (mem/switch_asm.s:5-24). Kernel stack pointers are offsets into the process's own stack.
- Halting: a stopped machine ends the run.
- A fault whose page stays absent, because no table could be had, is repeated by the processor; the model lets a store that meets this stop the machine, as the repeated faults do once the pool is empty.
- Stores made in kernel mode, apart from the store of the status: a step of a run is a byte stored in user mode. Wider stores are bytes one after the other.
- `sys_printf` and system-call dispatch.
- Wrap-around of `next_pid`: runs are shorter than 2^32 - 1 steps.
- ImageLoadsForAllContentsIff: asks for a page-aligned module, which the kernel asks its loader for (loader.s:13), and for as many free frames among the first 8192 as the call takes. For other modules `LoadsImageInMemory` gives one direction.
- NumberToString: leaves out INT_MIN in base 10, whose negation overflows in C. NumToDecimal and `%d` leave it out too. `%u` goes through the signed printer, as in the code, so values from 2^31 on print as negative numbers.
- Vsnprintf: leaves out formats that end in a single percent sign, which read past the terminator, and arguments whose kind does not fit the directive. "%%" prints one percent sign and lets the second one start a directive, as the code does.
- The scan for the magic number and the built-in test image of `init_initrd`, and operations that only report that they are not supported.
- Failures of the host's file operations, more than 64 files, and total sizes from 2^31 bytes on.
- Close, write, and making and removing files and directories through the mount table: the initrd's do nothing or report that they are not supported. A table of operations is modelled as the initrd's or as one in which all are missing.
- WaitStoresTheStatus: says nothing about when a word that straddles two pages, or lies in the kernel's half, is stored.
- Unmount sequences beyond one call on a clean table and the mount after it.
- Port I/O, interrupt controllers, timers, serial line, framebuffer, keyboard, logging, GDT and IDT.

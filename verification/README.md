# Feng OS in Dafny

Feng OS is a small x86-64 microkernel with user-space servers. This project models its hardest
parts as Dafny modules and proves what they are for: not only that allocators hand out disjoint
memory, but that they fail only when they must; not only that processes exchange messages without
losing a wakeup, but that each message is delivered unchanged, in order and at most once, its sender
blocked until then. A request that is outstanding waits for a chain of processes that ends in one
that can run or in a driver that waits for its device; that it is answered in the end is not proved,
since a server may go on working for ever or a device stay silent.

Each component has the same structure. A pure module says what one step of the code does to the
state; lemmas prove what holds over every run of steps. Where the code updates state in place, a
class with the source's fields and loops is proved to compute those steps.

| component | modules |
|---|---|
| buddy page allocator | `Dyadic`, `SortedLists`, `FreeLists`, `Buddy`, `BuddyAllocator`, `BuddyInit` |
| intrusive lists, process table | `LinkedLists`, `CircularList`, `ProcTable` |
| messages and scheduling | `Kernel`, `KernelInv`, `KernelRuns`, `KernelMessages`, `KernelOrder`, `KernelMachine` |
| request discipline of the servers | `Topology`, `TopologyInv`, `Progress`, `FengServers` |
| page tables, fork, identity map | `Arch`, `PageTable`, `PageMap`, `TearDown`, `Fork`, `IdentityMap`, `UserMemory` |
| user heap | `HeapBlocks`, `Heap`, `HeapRuns`, `HeapMachine` |
| slab cache | `SlabLayout`, `Slab`, `SlabInv`, `SlabRuns`, `SlabOrder`, `SlabMachine` |
| spinlock | `Spinlock` |
| disk and file reading | `Patches`, `DiskTransfer`, `Disk`, `Ext2Map`, `Ext2File`, `Ext2Layout`, `Ext2` |
| paths | `Vfs`, `VfsRuns`, `VfsPaths`, `VfsPrint`, `VfsMachine` |

`dafny verify dfyconfig.toml` checks all of it.

## Where the code does not do what one would hope

Each of these is proved with an input that shows it and with the exact condition under which the
code is right.

- The kernel identity map counts pages in 32 bits. It is right exactly for page counts from 1 to
  2^31 - 1 whose number of page tables is not a multiple of 2^20 (`IdentityMap.WorksExactly`,
  `IdentityMap.SaneMeans`, `IdentityMap.FirstUnmapped`).
- The spinlock byte has eight bits. The lock excludes exactly up to 129 CPUs
  (`Spinlock.SafeExactly`, `Spinlock.TwoHolders`).
- The release loop of the slab cache gives pages back without unlinking the slab. The cache stays
  sound exactly as long as a free leaves at most four empty slabs (`SlabInv.FreedInvExactly`), and
  every cache can be brought beyond that (`SlabRuns.OverflowReachable`).
- A slab that was once full is not used for allocation before it is empty again
  (`SlabRuns.OnceFull`), and a slab that was added stays. So free undoes alloc exactly when the
  allocation neither filled its slab nor grew the cache (`SlabRuns.AllocThenFree`); both happen in
  every cache (`SlabRuns.FillReachable`, `SlabRuns.GrowthStays`).
- The block lookup of the ext2 server subtracts the direct blocks in every tier. It is right exactly
  for direct and single indirect blocks (`Ext2Map.AgreesExactly`, `Ext2Map.Differs`).
- A hole reads as zeros in ext2, but the server stops there. A read gives all its bytes exactly when
  none of the blocks it touches is a hole (`Ext2File.ReadsAllExactly`, `Ext2File.HoleCutsShort`).
- A disk write pads its last sector, and the first sector is always sent, and sent whole. The rest of
  the disk is kept exactly when the size is a positive whole number of sectors
  (`DiskTransfer.WriteKeepsRestExactly`).
- A sector count of zero stands for 65536 sectors in the commands the driver issues. A transfer waits
  for as many interrupts as its command has sectors exactly when the request touches a sector; an
  empty aligned request starts a command for 65536 sectors and stops after one
  (`DiskTransfer.InterruptsExactly`, `DiskTransfer.EmptyRequest`).
- A server that listens to everybody and receives an interrupt finds its own process id as the
  sender; answering it blocks the server for ever (`FengServers.AnswersItselfIffInterrupt`,
  `FengServers.StrayInterruptIsFatal`). The progress theorems therefore assume that a driver's
  interrupt arrives while the driver waits for one.
- malloc rounds its request up in 64 bits, so zero and the seven largest sizes become zero. It gives
  memory of the caller's own, and keeps the heap in order, exactly for the other sizes
  (`Heap.MallocOwnsExactly`, `Heap.MallocedInv`, `Heap.MallocHugeIsNotOwned`); a request that rounds
  to zero gets the start of a free block, and the next request gets the same address exactly when
  that block is large enough (`Heap.MallocZeroAliases`).
- Printing a path compares the size of the buffer with one component at a time. It reports success
  exactly when the last component fits, which is right exactly when the whole path fits or the last
  component does not (`VfsPrint.ReportsExactly`, `VfsPrint.ReportsWrongly`).
- kmap checks no table word. It gives the right address for mapped user addresses
  (`PageMap.LoadMapped`); for any other it goes on in physical page 0 and returns an address all the
  same (`PageMap.LoadUnmapped`).

## Model

| member | source | states |
|---|---|---|
| `FreeLists.CanonicalUnique` | src/mm/buddy.c:26-52 | the free lists are determined by the set of free pages: two canonical list arrays over the same pages are equal |
| `FreeLists.InsertedCanonical` | src/mm/buddy.c:26-52 | inserting a freed block with all its cascading merges gives the canonical lists of the larger set of free pages |
| `FreeLists.FreeRunIsListed` | src/mm/buddy.c:54-88 | every aligned run of free pages lies inside one listed block of at least its order |
| `FreeLists.SplitCanonical` | src/mm/buddy.c:54-88 | splitting keeps the halves that are not handed out, and leaves the lists canonical |
| `FreeLists.TakenComplete` | src/mm/buddy.c:54-88 | allocation fails if and only if no aligned run of 2^k free pages exists |
| `FreeLists.TakenSound` | src/mm/buddy.c:54-88 | the block handed out is aligned and was free, and the lists of the remaining pages stay canonical |
| `FreeLists.TakenBest` | src/mm/buddy.c:54-88 | the block handed out starts a maximal free run of the smallest sufficient order, at the lowest address among those; there is only one such block |
| `FreeLists.TakeThenInsertRestores` | src/mm/buddy.c:26-88 | taking a block and inserting it again restores every list |
| `Buddy.RunKeepsInv` | src/mm/buddy.c:26-206 | every run of allocations, detachments and returns keeps the invariant |
| `Buddy.BlocksTile` | src/mm/buddy.c:26-206 | free, active and in-flight blocks are aligned, pairwise disjoint and tile exactly the usable pages |
| `Buddy.NoListedBuddies` | src/mm/buddy.c:26-52 | no two buddies below the top order are both listed |
| `Buddy.FreeListsDetermined` | src/mm/buddy.c:26-168 | two reachable states that hand out the same blocks have the same free lists |
| `Buddy.ReturnOrderIrrelevant` | src/mm/buddy.c:141-168 | giving the same blocks back in two different orders ends in the same free lists |
| `Buddy.AllocThenFree` | src/mm/buddy.c:54-168 | allocating a block and freeing it restores the whole state |
| `Buddy.EveryRunComplete` | src/mm/buddy.c:54-88 | after every run from boot, allocation fails exactly when no aligned free run of the order exists |
| `BuddyAllocator.CheckOrder` | src/mm/buddy.c:13-23 | the loop finds the largest order, below the limit, to which a page index is aligned |
| `BuddyAllocator.Allocator.BlockInsert` | src/mm/buddy.c:26-52 | the list walk with merges computes the canonical insertion |
| `BuddyAllocator.Allocator.SplitBlock` | src/mm/buddy.c:74-77 | the split loop puts back the upper halves, down to the requested order |
| `BuddyAllocator.Allocator.TakeBlock` | src/mm/buddy.c:54-88 | the search takes the lowest block of the smallest sufficient order, said of the free pages |
| `BuddyAllocator.Allocator.AllocPages` | src/mm/buddy.c:54-88 | the step of the transition system, null exactly when no aligned free run exists, and otherwise the start of the lowest maximal run of the smallest sufficient order |
| `BuddyAllocator.Allocator.DetachPages` | src/mm/buddy.c:148-162 | the first lock section takes the block at an address off the active list, or reports that there is none |
| `BuddyAllocator.Allocator.InsertPages` | src/mm/buddy.c:141-146 | the second lock section returns the detached block |
| `BuddyAllocator.Allocator.FreePages` | src/mm/buddy.c:148-168 | both sections in turn; an address of no active block changes nothing |
| `BuddyInit.Decompose` | src/mm/buddy.c:175-206 | the decomposition loop lists an incomplete chunk in maximal blocks |
| `BuddyInit.CountUsable` | src/mm/buddy.c:190-194 | the scan counts unreserved pages and stops only at the limit, at a reserved page or at the end |
| `BuddyInit.ListChunk` | src/mm/buddy.c:186-204 | one turn of the boot loop scans a run of unreserved pages up to the alignment of its start and lists it in maximal blocks |
| `BuddyInit.BuddySystemInit` | src/mm/buddy.c:175-206 | for every reservation pattern the boot lists are the canonical lists of the pages not reserved |
| `CircularList.Init` | src/include/kernel/list.h:50-53 | an initialised head is the ring of the empty sequence |
| `CircularList.IsNull` | src/include/kernel/list.h:59-62 | the emptiness test is exact |
| `CircularList.AddBetween` | src/include/kernel/list.h:67-73 | linking a node between two neighbours inserts it at that place of the sequence and touches three nodes |
| `CircularList.Add` | src/include/kernel/list.h:80-83 | inserting behind the head prepends to the sequence |
| `CircularList.AddTail` | src/include/kernel/list.h:90-93 | inserting before the head appends to the sequence |
| `CircularList.Del` | src/include/kernel/list.h:98-122 | unlinking a node removes it from the sequence and clears its pointers |
| `CircularList.ForEach` | src/include/kernel/list.h:129-129 | the walk visits every node once and in order |
| `CircularList.ForEachPrev` | src/include/kernel/list.h:144-144 | the backward walk visits them in reverse |
| `CircularList.ForEachSafeDeleting` | src/include/kernel/list.h:137-137 | the safe walk visits every node even if each visited node is deleted, and leaves the empty ring |
| `CircularList.MoveToTail` | src/core/sched.c:110-113 | delete and append move an entry to the end of the sequence |
| `ProcTable.Table.MapProc` | src/core/sched.c:38-50 | the search of one bucket finds exactly what the table holds for the process id |
| `ProcTable.Table.HashProc` | src/core/sched.c:52-56 | adding a process adds one binding to the table |
| `ProcTable.Table.UnmapProc` | src/core/sched.c:58-63 | removing a process id removes its binding and no other |
| `KernelInv.StepInv` | src/core/ipc.c:12-108 | every step between two calls of the scheduler keeps the invariant: a blocked sender is in exactly one queue, its destination's; no receiver is blocked while what it waits for is there; one process at most runs |
| `KernelInv.ScheduleInv` | src/core/sched.c:98-133 | the scheduler restores that exactly the current process is running |
| `KernelInv.EnqueuedCore` | src/core/ipc.c:25-33 | sending queues the caller at the destination and wakes the destination if it waits for the caller or for anyone |
| `KernelInv.ReceiveOk` | src/core/ipc.c:37-97 | receiving takes an interrupt, takes a message, or blocks with nothing there to receive |
| `KernelInv.ContinuedOk` | src/core/ipc.c:63-97 | what runs after the scheduler returns keeps the invariant and its preconditions |
| `KernelInv.InterruptedInv` | src/core/ipc.c:18-23 | latching an interrupt loses no wakeup |
| `KernelInv.ForkedInv` | src/core/fork.c:112-117 | a forked process joins the list at its tail, runnable, as one step |
| `KernelRuns.BootInv` | src/core/sched.c:290-314 | the process table at boot meets the invariant |
| `KernelRuns.RunInv` | src/core/ipc.c:12-108 | no run leads out of the invariant |
| `KernelRuns.WokenReceiverCompletes` | src/core/ipc.c:44-97 | a receiver that runs again completes its call in that same segment, so the receive loop repeats at most once per block |
| `KernelRuns.StepExactlyOnce` | src/core/ipc.c:12-108 | every step keeps, for each pair of processes, that the sent messages are the delivered ones followed by the one in transit |
| `KernelRuns.RunExactlyOnce` | src/core/ipc.c:12-108 | the same over every run from a state in which it holds |
| `KernelRuns.DeliveredExactlyOnce` | src/core/ipc.c:12-108 | in every state reached from boot, what a process sent is what was delivered from it, unchanged and in order, followed by the one message it is blocked on if it is blocked in a send |
| `KernelMessages.StepExpected` | src/core/ipc.c:12-108 | every step adds the one event that the state calls for: the sent message is the one passed to the call, the delivered one is in the receiver's buffer and is what its sender is blocked on, an interrupt comes first and sets type and first word; no other buffer, outgoing message or interrupt flag changes |
| `KernelMessages.BufferWasPassed` | src/core/ipc.c:12-108 | in every run from boot, a receive that returns with a message leaves in the caller's buffer what its sender passed to a send to it |
| `KernelMessages.InterruptsTold` | src/core/ipc.c:18-86 | over every run no interrupt is told that was not raised, and none is lost before one is told |
| `KernelMessages.ExitIsFinal` | src/core/sys.c:57-58 | a process that exits is stopped and never runs again |
| `KernelOrder.RunOrder` | src/core/ipc.c:25-33 | every run keeps each queue in order of arrival, also when a receive from one sender takes from the middle |
| `KernelOrder.OldestFirst` | src/core/ipc.c:53-60 | with queues in order of arrival, receiving from anyone takes the message that was sent first |
| `KernelOrder.OldestFirstFromBoot` | src/core/ipc.c:53-60 | in every state reached from boot receiving from anyone takes the message that was sent first |
| `KernelOrder.StepTurns` | src/core/sched.c:98-133 | a step runs a runnable process or keeps it runnable, and each call of the scheduler uses up one of its turns |
| `KernelOrder.BoundedWaiting` | src/core/sched.c:98-133 | a runnable process with k entries ahead of it runs within k + 1 calls of the scheduler, whatever the others do |
| `KernelMachine.Machine.ScheduleNext` | src/core/sched.c:98-133 | the list rotation and the search compute the scheduling step |
| `KernelMachine.Machine.DoSend` | src/core/ipc.c:12-35 | sending from user mode is the send step; with the receive half, the first half of the combined call |
| `KernelMachine.Machine.DoSendIntr` | src/core/ipc.c:18-23 | an interrupt message latches the flag and wakes a process that waits for it |
| `KernelMachine.Machine.RecvSegment` | src/core/ipc.c:37-97 | the code up to the first call of the scheduler, or to the return, is the receive segment |
| `KernelMachine.Machine.DoRecv` | src/core/ipc.c:37-97 | receiving from user mode is the receive step |
| `KernelMachine.Machine.ContinueCall` | src/core/ipc.c:63-108 | what follows the scheduler in each call is the continuation step |
| `TopologyInv.SysStepInv` | src/srv/vfs/vfs.c:625-683 | servers that ask only higher servers and answer who asked keep the request discipline in every step |
| `Progress.SysRunInv` | src/libc/fs.c:10-48 | the discipline holds over every run |
| `Progress.NoDeadlock` | src/core/ipc.c:12-108 | in no reachable state do processes wait for each other in a circle |
| `Progress.RequestsProgress` | src/core/ipc.c:12-108 | the chain of processes that an outstanding request waits for ends in one that can run or in a driver that waits for its device |
| `FengServers.FengBootInv` | src/srv/disk/disk.c:277-313 | the servers of the system, ranked client, VFS, file system and consoles, disk, boot into the discipline |
| `FengServers.FengNoDeadlock` | src/srv/vfs/vfs.c:625-683 | no run of the system from boot reaches a circle of waiting processes |
| `FengServers.FengProgress` | src/srv/disk/disk.c:230-236 | in every state of every such run the chain of waits from an outstanding request ends in a process that can move |
| `FengServers.AnswersItselfIffInterrupt` | src/boot/syscall.c:58-62 | a listener finds its own process id as the sender exactly when the message is an interrupt |
| `FengServers.StrayInterruptDeadlocks` | src/srv/disk/disk.c:285-309 | a server that answers an interrupt taken while listening blocks on itself |
| `FengServers.SelfSendIsForever` | src/core/ipc.c:25-33 | no step releases a process that sends to itself |
| `FengServers.StrayInterruptIsFatal` | src/srv/disk/disk.c:285-309 | such a process is blocked in every continuation, which is why the discipline excludes the interrupt |
| `PageTable.WalkIsLookup` | src/mm/page.c:12-34 | walking the raw frames gives what the tree of paths holds |
| `PageTable.PathOfPage` | src/mm/page.c:22-32 | two addresses have the same four indices exactly when they are on the same page |
| `PageMap.Memory.Descend` | src/mm/page.c:47-53 | one level: the child is the existing one or a new zeroed frame that no slot uses |
| `PageMap.Memory.MapPage` | src/mm/page.c:36-86 | exactly one binding is added or the existing one returned; a new page is zeroed; none exactly when memory ran out |
| `PageMap.Memory.Kmap` | src/mm/page.c:12-34 | four unchecked loads along the indices, for every address; for a mapped user address the result is the kernel address of its frame plus the offset |
| `PageMap.LoadMapped` | src/mm/page.c:12-34 | for a mapped user address the loads reach its frame |
| `PageMap.LoadUnmapped` | src/mm/page.c:12-34 | for an unmapped user address the loads go on in physical page 0 from the first missing table, and end there if only the page is missing |
| `PageMap.ExtendsLookup` | src/mm/page.c:36-86 | mapping a page changes the translation of no other page and the contents of no mapped page |
| `TearDown.FreeLevel` | src/mm/page.c:103-126 | the nested loops free each frame below a table exactly once and nothing else |
| `TearDown.FreeProcMm` | src/mm/page.c:93-129 | the free frames grow by exactly the frames of the user half, which becomes empty; the kernel half is untouched |
| `TearDown.MapThenTearDown` | src/mm/page.c:36-129 | any sequence of mappings followed by tear-down gives every frame back |
| `Fork.CopyPage` | src/core/fork.c:48-52 | one page: mapped for the child and filled from the parent, the parent unchanged; it fails only with no free frame left and the page missing |
| `Fork.CopyRange` | src/core/fork.c:46-71 | a copy loop adds exactly the pages of its range with equal contents, also when pages were already copied; it fails only with no free frame left and a page missing |
| `Fork.CopySegs` | src/core/fork.c:42-54 | the segment loop copies every page of every segment, or stops with no free frame left and a needed page missing |
| `Fork.CopyMm` | src/core/fork.c:19-73 | it succeeds if and only if there are as many free frames as the pages and their tables need; the child then has exactly the parent's pages with equal contents in frames of its own and the same kernel half; the parent is as it was and no frame is lost |
| `Fork.ChildSeesParent` | src/core/fork.c:19-73 | at every user address the child sees the parent's bytes, in another frame |
| `UserMemory.ForkedAddresses` | src/core/fork.c:38-71 | the pages that a fork copies are exactly those of the addresses in the stack, in the heap and, rounded outwards, in the segments |
| `UserMemory.KernelHalfWords` | src/core/fork.c:35-36 | a child with the same kernel half has the parent's words of the top table from the 256th on |
| `UserMemory.KernelAddressWorks` | src/mm/page.c:32-33 | the kernel address of a physical address is translated back to it by the kernel's own tables |
| `UserMemory.PageAddressWorks` | src/mm/buddy.c:116-130 | the address of a page is translated to that page |
| `UserMemory.AddressNames` | src/mm/buddy.c:154-158 | an address to be freed names the block whose first page it lies in |
| `UserMemory.EntryBits` | src/mm/page.c:46-85 | a table entry is present, writable and open to user mode, and points to its frame |
| `UserMemory.TablesTake` | src/mm/page.c:168-190 | the tables end after one page per 512 pages of memory, per 512 of those, and so on, rounded up at each level |
| `Fork.GetZeroedPage` | src/mm/buddy.c:132-139 | a page that was free, now zeroed and taken |
| `IdentityMap.Fill` | src/mm/page.c:141-166 | a fill loop writes consecutive entries into cleared tables exactly when the 32-bit count and size allow it |
| `IdentityMap.SetupPageTable` | src/mm/page.c:168-190 | the tables are built, up to the returned end, exactly when the truncated page count is sane |
| `IdentityMap.IdentityMapped` | src/mm/page.c:168-190 | every address below the memory size is mapped to itself by the built tables |
| `IdentityMap.WorksExactly` | src/mm/page.c:131-190 | the identity map is right for a memory size if and only if the page count passes the 32-bit tests |
| `IdentityMap.FirstUnmapped` | src/mm/page.c:159-166 | beyond the 32-bit count there is a page that is not mapped to itself |
| `IdentityMap.SaneMeans` | src/mm/page.c:159-166 | the condition in numbers: at least one page, fewer than 2^31, and the number of page tables not a multiple of 2^20 |
| `HeapBlocks.MergedCoalesced` | src/libc/malloc.c:71-102 | merging a block into a sorted list without neighbours keeps it so |
| `HeapBlocks.MergedCovers` | src/libc/malloc.c:71-102 | merging adds exactly the bytes of the block |
| `HeapBlocks.CoalescedUnique` | src/libc/malloc.c:71-102 | the coalesced list is determined by its bytes |
| `Heap.InitInv` | src/libc/malloc.c:46-69 | the heap after initialisation meets the invariant |
| `Heap.MallocedInv` | src/libc/malloc.c:104-143 | malloc keeps blocks nonempty, disjoint, eight-byte multiples and tiling exactly what sbrk gave if and only if the request does not round to zero in 64 bits |
| `Heap.FreedInv` | src/libc/malloc.c:145-163 | free, also of an address that is no block, keeps the invariant |
| `Heap.FreedExactly` | src/libc/malloc.c:145-163 | free of the address of a busy block takes exactly that block off the busy list and adds exactly its bytes to the free ones; any other address changes nothing |
| `Heap.RunInv` | src/libc/malloc.c:71-163 | over every run of free and of malloc with sizes that do not round to zero the invariant holds |
| `Heap.MallocFresh` | src/libc/malloc.c:104-143 | for every size that does not round to zero malloc returns a block of its own with room for the request |
| `Heap.MallocFirstFit` | src/libc/malloc.c:109-129 | if a free block is large enough, the block comes from the lowest one and sbrk is not asked |
| `Heap.MallocThenFree` | src/libc/malloc.c:104-163 | free after malloc restores the busy list and the free bytes; without a new region, the free list itself |
| `Heap.MallocZeroAliases` | src/libc/malloc.c:104-143 | a request that rounds to zero gets the start of the first free block, with or without growing the heap; the next request, of any size, gets that address too if and only if the block is large enough |
| `Heap.MallocOwnsExactly` | src/libc/malloc.c:104-143 | the returned address is free memory if and only if the size is zero or above 2^64 - 8 |
| `Heap.MallocHugeIsNotOwned` | src/libc/malloc.c:108-108 | the largest size is answered with memory that stays free |
| `HeapRuns.BusyUntilFreed` | src/libc/malloc.c:104-163 | over every run a block stays busy exactly until its address is freed |
| `HeapRuns.MallocUntilFree` | src/libc/malloc.c:104-163 | what malloc returned stays the caller's and shares no byte with any other busy block until it is freed, whatever else happens |
| `HeapRuns.MallocGrows` | src/libc/malloc.c:114-129 | when no free block suffices, one region of the request or of 8192 bytes is taken beyond the break, and what the request leaves of it is free |
| `HeapRuns.RunAccounted` | src/libc/malloc.c:20-163 | after every history the break has moved by exactly the regions taken and 32 bytes per descriptor |
| `HeapMachine.Allocator.AllocNode` | src/libc/malloc.c:20-39 | a descriptor is taken from the spare ones or from a new region of them |
| `HeapMachine.Allocator.MergeFree` | src/libc/malloc.c:71-102 | the list walk that joins neighbours computes the merged list |
| `HeapMachine.Allocator.JoinNeighbours` | src/libc/malloc.c:77-97 | the loop joins every neighbour the block touches and finds its place; each joined block frees a descriptor |
| `HeapMachine.Allocator.TakeBlock` | src/libc/malloc.c:109-129 | the first sufficient block is unlinked, or a new region is asked for |
| `HeapMachine.Allocator.Malloc` | src/libc/malloc.c:104-143 | the malloc step |
| `HeapMachine.Allocator.Free` | src/libc/malloc.c:145-163 | the free step |
| `SlabLayout.Align` | src/mm/slab.c:13-19 | rounds up to the next multiple of eight |
| `SlabLayout.ObjectInside` | src/mm/slab.c:37-55 | every object lies behind the header and the index array and inside the slab's pages |
| `SlabLayout.ObjectsApart` | src/mm/slab.c:149-158 | objects of one slab or of two slabs do not overlap |
| `SlabLayout.SlabIndexFinds` | src/mm/slab.c:219-226 | the index computation undoes the address computation on the right slab and rejects every other slab |
| `SlabLayout.NumberFits` | src/mm/slab.c:104-108 | the computed number of objects is at least three, below the end marker, and fits beside the header |
| `SlabLayout.CreateLayout` | src/mm/slab.c:73-116 | exactly the sizes below a quarter of the largest block are accepted, and each gets a layout that fits in the smallest sufficient order |
| `SlabInv.GrownInv` | src/mm/slab.c:37-62 | a new slab keeps the invariant and adds no live object |
| `SlabInv.TakenInv` | src/mm/slab.c:169-201 | taking an object fails exactly when no slab is partial or empty; otherwise one object that was not live becomes live |
| `SlabInv.AllocedInv` | src/mm/slab.c:208-216 | allocation fails exactly without such a slab and without pages, and then changes nothing |
| `SlabInv.FreedLive` | src/mm/slab.c:228-262 | free takes exactly that object out of the live ones |
| `SlabInv.FreedInvExactly` | src/mm/slab.c:269-279 | free keeps the invariant if and only if it does not leave more than the allowed number of empty slabs; otherwise a listed slab has lost its pages |
| `SlabRuns.RunAgrees` | src/mm/slab.c:149-279 | over every run below that limit the live objects are those the client got and did not give back |
| `SlabRuns.AllocNeverOverlaps` | src/mm/slab.c:208-216 | after every such run an allocated object shares no byte with one the client holds |
| `SlabRuns.AllocThenFree` | src/mm/slab.c:149-262 | for every answer of the page allocator, free undoes alloc if and only if the allocation neither filled its slab nor grew the cache; after growth the new empty slab is what stays |
| `SlabRuns.FillReachable` | src/mm/slab.c:149-262 | every cache can be brought to an allocation that fills its slab and is not undone |
| `SlabRuns.GrowthStays` | src/mm/slab.c:208-216 | the first allocation of every cache grows it and is not undone |
| `SlabRuns.OnceFull` | src/mm/slab.c:149-262 | over every run a slab on the full list stays there and hands out no object until it is empty |
| `SlabOrder.FreeThenAlloc` | src/mm/slab.c:149-262 | the object that was freed last is handed out first, as long as its slab is next |
| `SlabOrder.InAddressOrder` | src/mm/slab.c:149-201 | a new slab hands out its objects from the lowest address up |
| `SlabOrder.FirstOfNewSlab` | src/mm/slab.c:208-216 | an allocation that grows the cache gets the first object of the new slab |
| `SlabRuns.OverflowReachable` | src/mm/slab.c:269-279 | for every layout there is a history of proper calls that sets off the release loop |
| `SlabMachine.Cache.Grow` | src/mm/slab.c:37-62 | the array loop and the list insertion compute the growth step |
| `SlabMachine.Cache.AllocFrom` | src/mm/slab.c:149-167 | the object at the top of the index stack is handed out; a slab that becomes full moves to the full list |
| `SlabMachine.Cache.TryAlloc` | src/mm/slab.c:169-201 | the two list loops compute the taking step |
| `SlabMachine.Cache.Alloc` | src/mm/slab.c:208-216 | the allocation step, growing once if needed |
| `SlabMachine.Cache.FindSlab` | src/mm/slab.c:235-248 | the searches end at the slab and index of the object |
| `SlabMachine.Cache.FreeObject` | src/mm/slab.c:228-262 | the index goes back on the stack; an empty slab moves to the empty list |
| `SlabMachine.Cache.Free` | src/mm/slab.c:269-279 | the free step with its release loop |
| `Spinlock.StepInv` | src/include/boot/spinlock.h:14-37 | every atomic instruction of at most 129 CPUs keeps that the byte is one exactly when nobody holds the lock and that it counts waiting CPUs otherwise |
| `Spinlock.MutualExclusion` | src/include/boot/spinlock.h:14-37 | in every interleaving of lock, try-lock and unlock one CPU at most holds the lock, and the byte never falls below one less than the number of CPUs, negated |
| `Spinlock.AcquiresExactly` | src/include/boot/spinlock.h:14-37 | in every interleaving of at most 129 CPUs a lock or try-lock attempt succeeds if and only if nobody holds the lock |
| `Spinlock.SpinsExactly` | src/include/boot/spinlock.h:14-37 | a spinning CPU tries again if and only if nobody holds the lock, and unlocking frees it |
| `Spinlock.TwoHolders` | src/include/boot/spinlock.h:14-26 | with 130 CPUs or more an interleaving lets two of them in |
| `Spinlock.SafeExactly` | src/include/boot/spinlock.h:14-37 | all interleavings exclude if and only if there are at most 129 CPUs |
| `DiskTransfer.InterruptsExactly` | src/srv/disk/disk.c:202-238 | a transfer that is done has waited for as many interrupts as its command has sectors, a count of zero standing for 65536, if and only if the request touches a sector |
| `DiskTransfer.EmptyRequest` | src/srv/disk/disk.c:202-238 | an empty request at the start of a good sector is done after one interrupt, reading or writing, though its command is for 65536 sectors |
| `DiskTransfer.ReadRunOutcome` | src/srv/disk/disk.c:230-236 | a read ends after one interrupt per sector, or with an error at the first sector that reports one |
| `DiskTransfer.ReadRunCopies` | src/srv/disk/disk.c:110-131 | the sector pieces put together are the slice of the disk |
| `DiskTransfer.DoneReadsAll` | src/srv/disk/disk.c:202-238 | on good sectors the buffer is the whole slice, after exactly the computed number of sectors |
| `DiskTransfer.WriteRunOutcome` | src/srv/disk/disk.c:230-236 | a write ends after one interrupt per sector, or with an error at the first bad one |
| `DiskTransfer.WriteRunStores` | src/srv/disk/disk.c:133-157 | the sectors sent are the buffer's, in order, the last one padded |
| `DiskTransfer.AfterWriteIsPatch` | src/srv/disk/disk.c:133-157 | all sectors together are one contiguous change of the disk |
| `DiskTransfer.ImagePads` | src/srv/disk/disk.c:133-157 | behind the buffer's bytes the last sector has zeros, and a first sector that is not full has what follows the buffer in memory |
| `DiskTransfer.WriteThenRead` | src/srv/disk/disk.c:110-157 | reading back what was written gives the buffer |
| `DiskTransfer.WriteKeepsRestExactly` | src/srv/disk/disk.c:133-157 | the rest of every disk is kept if and only if the size is a positive whole number of sectors |
| `Disk.Driver.ReadSector` | src/srv/disk/disk.c:110-131 | one interrupt of a read copies the wanted part of one sector and advances the request |
| `Disk.Driver.WriteSector` | src/srv/disk/disk.c:133-157 | one interrupt of a write sends the next sector or ends |
| `Disk.Driver.ReadLoop` | src/srv/disk/disk.c:230-236 | the loop computes the read run |
| `Disk.Driver.WriteLoop` | src/srv/disk/disk.c:230-236 | the loop computes the write run |
| `Disk.Driver.Transfer` | src/srv/disk/disk.c:202-238 | unaligned writes and oversized commands are refused with nothing changed; otherwise the outcome and the bytes of the run |
| `Disk.Driver.WriteReadBack` | src/srv/disk/disk.c:202-238 | writing a buffer and reading the same place into another one succeeds if and only if the write is aligned, the command small enough and every sector good, and then the other buffer holds what was written |
| `Ext2Map.DescendFollows` | src/srv/ext2/main.c:176-187 | the descent with quotient and remainder follows the digits of the block number |
| `Ext2Map.Agrees` | src/srv/ext2/main.c:157-188 | for direct and single indirect blocks the walk gives the block that the ext2 format defines |
| `Ext2Map.Differs` | src/srv/ext2/main.c:179-179 | for every other block number in range there is a disk on which it does not |
| `Ext2Map.AgreesExactly` | src/srv/ext2/main.c:157-188 | the walk is right on all disks if and only if the number is direct, single indirect or behind the last tier |
| `Ext2Layout.WordIs` | src/srv/ext2/main.c:184-184 | four bytes that spell a number, lowest first, are read as that number |
| `Ext2Layout.SingleBlock` | src/srv/ext2/main.c:157-188 | on a disk whose indirect block holds numbers in little-endian bytes, block 12 + i of the file is the i-th of them, by the definition and by the walk |
| `Ext2Layout.DoubleBlock` | src/srv/ext2/main.c:157-188 | the definition that the walk is compared with: block 12 + base + i * base + j is the j-th number of the i-th indirect block |
| `Ext2Layout.FileBytes` | src/srv/ext2/main.c:336-372 | byte j of block n of a file, which reading returns, is the byte of the disk at the volume's offset plus the n-th number times the block size plus j, or zero if that number is zero |
| `Ext2.MakeLadder` | src/srv/ext2/main.c:147-152 | the ladder holds the number of blocks each pointer reaches |
| `Ext2.FindTier` | src/srv/ext2/main.c:164-174 | the search ends at the tier the block lies in |
| `Ext2.WalkDown` | src/srv/ext2/main.c:176-187 | the loop over indirect blocks computes the descent |
| `Ext2.GetBlockNo` | src/srv/ext2/main.c:157-188 | the whole lookup computes the walk |
| `Ext2.ReadBlock` | src/srv/ext2/main.c:22-27 | a block is read exactly when it lies on the disk |
| `Ext2.GetBlock` | src/srv/ext2/main.c:195-203 | the bytes of the block that the format defines, or the news that it is a hole |
| `Ext2File.EndsExactly` | src/srv/ext2/main.c:359-368 | a read gets to its end if and only if none of the blocks it touches is a hole |
| `Ext2File.EndsAtHole` | src/srv/ext2/main.c:359-368 | a read that meets a hole ends where the first one begins, or where it started if that is in the hole |
| `Ext2File.ReadsAllExactly` | src/srv/ext2/main.c:359-368 | a read gives the bytes that the ext2 format defines, zeros in holes, if and only if none of the blocks it touches is a hole |
| `Ext2File.HoleFreeEnds` | src/srv/ext2/main.c:359-368 | all reads within a file get to their end if and only if the file has no hole |
| `Ext2File.HoleCutsShort` | src/srv/ext2/main.c:359-368 | a read of two blocks, the second a hole, ends after the first |
| `Ext2.ReadPart` | src/srv/ext2/main.c:359-367 | one turn of the loop gives the file's bytes up to the end of the block or of the request, or stops at a hole |
| `Ext2.ReadBlocks` | src/srv/ext2/main.c:356-368 | the loop stops with the file's bytes up to the end of the request or the first hole |
| `Ext2.ReadLoop` | src/srv/ext2/main.c:354-368 | the loop behind the clamping returns the file's bytes up to the end or the first hole |
| `Ext2.Read` | src/srv/ext2/main.c:336-372 | the file's bytes from the position to the end of the request, of the file, or to the first hole; nothing for a position outside the file |
| `VfsRuns.LookupInFsInv` | src/srv/vfs/vfs.c:129-167 | caching an answer of the file system keeps the tree and every known entry |
| `VfsRuns.EnterAgrees` | src/srv/vfs/vfs.c:187-213 | one component resolved with the cache is one step of the walk without it |
| `VfsRuns.ResolveAgrees` | src/srv/vfs/vfs.c:169-216 | cached resolution ends at the place the walk ends at, or fails exactly when it fails |
| `VfsRuns.LookupAfterRun` | src/srv/vfs/vfs.c:169-216 | after every run of lookups and new names a lookup finds what the file system alone gives |
| `VfsPaths.RelativePath` | src/srv/vfs/vfs.c:178-216 | names with slashes between them, not starting with a slash, lead where the walk from the current directory leads |
| `VfsPaths.AbsolutePath` | src/srv/vfs/vfs.c:178-216 | the same behind a slash leads where the walk from the root leads |
| `VfsPaths.EmptyPath` | src/srv/vfs/vfs.c:178-216 | no name is the current directory, and a slash alone the root |
| `VfsPaths.PathAfterRun` | src/srv/vfs/vfs.c:169-216 | both after every run of lookups and new names |
| `VfsRuns.SplitJoined` | src/srv/vfs/vfs.c:120-127 | splitting a path into components undoes joining names with slashes |
| `VfsRuns.PrintThenLookup` | src/srv/vfs/vfs.c:346-367 | the printed path of every entry, looked up from anywhere, leads to that entry and asks no file system |
| `VfsMachine.GetFileName` | src/srv/vfs/vfs.c:120-127 | the buffer holds the next component and a terminator |
| `VfsMachine.Server.FindChild` | src/srv/vfs/vfs.c:199-205 | the loop finds the first cached child with the name |
| `VfsMachine.Server.AskFs` | src/srv/vfs/vfs.c:129-167 | a known name becomes a new first child; an unknown one changes nothing |
| `VfsMachine.Server.LookupPath` | src/srv/vfs/vfs.c:169-216 | the path loop computes the resolution, and every cached name fits in its field |
| `VfsMachine.Server.PrintPath` | src/srv/vfs/vfs.c:346-367 | for buffers of every size, the answer and the memory that the recursion leaves |
| `VfsPrint.RoomPrints` | src/srv/vfs/vfs.c:346-367 | a buffer with room for the whole path gets the path and a terminator, and nothing else changes |
| `VfsPrint.ReportsExactly` | src/srv/vfs/vfs.c:346-379 | success is reported if and only if the last component fits, so the report is right if and only if the whole path fits or the last component does not |
| `VfsPrint.ReportsWrongly` | src/srv/vfs/vfs.c:346-379 | for every entry but the root there is a size that is reported as enough and is not |
| `VfsMachine.Server.PrintThenLookUp` | src/srv/vfs/vfs.c:169-367 | printing the path of any entry and looking it up from anywhere gives that entry and leaves the tree as it was |

## Left out

- Boot code, APIC, consoles, port I/O, context switches and string primitives: hardware or assembly; copying and filling are sequence operations here.
- Executions of the message passing on several CPUs: queues and states are changed without a lock, so the model has one CPU and interrupt gates make the code between two calls of the scheduler atomic.
- Alarms, sleeping and pausing: not reachable through the system call table.
- Waiting for children and signals: a reaped child stays in its parent's list, so no strong property holds; exit is modelled as the process never running again.
- Special process ids are constructors of a datatype; sending to a process id that does not exist is not modelled, because the code dereferences the missing entry.
- Process lists, wait queues and free lists are sequences in the larger models; `CircularList` proves that the pointer form refines them.
- The free frames of the page-table modules are a set; that the page allocator hands out disjoint aligned blocks is proved separately in the buddy modules.
- PageMap.Memory.Kmap: for an unmapped address, the pages that the loads lead to are part of the memory; the code follows whatever words it finds there.
- Fork.CopyMm: running out of memory is the failing result; the code returns minus one if there is no top table, but stops with an assertion when mapping a page finds no frame. Copying of open files and registers is not modelled.
- KernelInv.ForkedInv: the end of fork is one step. The code enables interrupts after listing the child and before making it runnable, and an interrupt taken there can call the scheduler, so others may briefly see a listed child in the sending state that is in no queue; the model does not have that state.
- IdentityMap.SetupPageTable: memory sizes are at most 2^47 bytes, the size of the half that the top table can address.
- HeapMachine.Allocator.Malloc: sbrk succeeds; its failure paths are not modelled.
- SlabLayout.CreateLayout: a zero size divides by zero in the code and is excluded; the page for the cache record itself is not modelled.
- SlabMachine.Cache.Free: only objects that are live are freed; for any other address the code takes some slab and an index of minus one.
- The locks around the buddy lists and the scheduler are not modelled apart from the two lock sections of freeing pages.
- Disk.Driver.Transfer: the caller's buffer holds the size it passes, so position plus size does not wrap around 64 bits; the partition table is not modelled.
- Ext2.Read: the caller's buffer holds the size it passes, so position plus size does not wrap around 64 bits; blocks have at most 4096 bytes, sectors are good and a block fits in one disk command; the server ignores a failed read, which would leave old bytes in its buffer. Files are within direct and single indirect blocks, which `Ext2Map.AgreesExactly` shows to be exactly where the lookup is right.
- Block and inode allocation, writing files, making directories and listing them: unfinished in the source.
- VfsMachine.Server.LookupPath: components are shorter than the 256 characters of the path loop's buffer, and those that name an entry of some directory shorter than the 128 characters of an entry's name field; the code checks neither. Reference counts and the device entries, whose parent is unset, are not modelled.
- VfsMachine.Server.PrintPath: there is memory before the buffer and behind it for what the code writes when the buffer is too small.
- The keyboard ring buffer, formatted printing, FAT32, the ELF loader, exec's argument packing, the shell and the system call wrappers.

# VenomOS, verified

A Dafny model of the parts of the VenomOS kernel whose correctness is a property of whole runs
rather than of single calls, with proofs. `dafny verify dfyconfig.toml` checks all of it.

The project has six parts, each built the same way: a value model, theorems about it, and classes
that do what the C++ does in place and are proved against the model.

* **Tasks and scheduler** (`Pids`, `TaskModel`, `TaskInvariants`, `TaskResources`, `TaskRuns`,
  `TaskFairness`, `TaskEffects`, `TaskGap`, `TaskLinks`, `TaskTable`). A state machine of nine kinds
  of step over the task table, its invariants, what each step does field by field, theorems over all
  runs, and the table with child lists linked by PID.
* **Page tables over the frame allocator** (`Bitmap`, `Frames`, `PageModel`, `Paging`, `SpaceLife`,
  `KernelMap`, `WxPages`, `UserCopy`, `PteBits`). The four-level tree of Intel SDM volume 3A,
  sections 4.5 and 4.6, seen as a map from index paths to entries; mapping, unmapping, protecting,
  creating and destroying in place; what a space owns over its life; the kernel's own tables; the
  user-range check.
* **VenomFS** (`FsModel`, `FsSpace`, `FsRebuild`, `FsVolume`). Table, bitmap and disk, the disk an
  adversary whose writes may fail and leave anything behind; the volume refines a map from names to
  bytes.
* **Kernel heap** (`HeapModel`, `HeapTheorems`, `HeapGrants`, `HeapList`, `HeapAllocator`). The
  block list as a sequence, theorems over all runs of calls, and the list of headers threaded
  through memory.
* **ELF loading** (`Bytes`, `PackedFields`, `Elf`, `ElfLayout`, `InitialStack`, `Loader`,
  `ProcessRun`). The validator, the process image page by page on real page tables, the initial
  stack of section 3.4.1 of the System V AMD64 psABI with a reader for it, and every failure path of
  `run`.
* **FAT32** (`FatModel`, `FatVolume`, `FatLayout`, `FatDirectory`, `FatNames`, `FatBuilder`,
  `FatImage`, `FatFiles`, `FatPath`). The reader with its one-sector cache over arbitrary FAT
  contents, the image builder it must agree with, and the two together.

## How the model stands for the code

* A kernel call is one step. For `exit_current` and the timer that is how the code works, with
  interrupts off. For `create`, `sleep_current`, `block_current` and the other calls of kernel tasks,
  which run with interrupts on, it is an assumption; the trampoline of a new task and
  `wait_for_child` are taken apart. The gap `wait_for_child` leaves between its scan and
  `block_current` can lose a wake-up: `TaskGap` says exactly when and gives a run that does, and the
  theorem on blocked parents in `TaskRuns` is about the code with the gap closed.
* init and idle never exit, and idle only halts. PIDs repeat after 2^56 uses of a slot;
  `PidCollision` says exactly when. The timer count does not wrap.
* Addresses of `map_page_in` are at least 1 GiB: below, the shared kernel entry is widened before
  the huge-page test. Flags carry no address bits. Frame 0 is never free, which `Frames` proves of
  `init`. `destroy_address_space` leaves everything above 2^39 in use (`DestroyExact`).
* `kfree`, the growth of the heap and the loops of `kmalloc` are modelled as written, including that
  a grown frame joins the block above it whether or not that is free; `AllocateGrants` gives the
  exact condition under which nothing is lost, `SwallowedBlock` a run in which a live block is.
* Which disk operations fail is an arbitrary function of how many came before. A failed write leaves
  the target arbitrary; a failed read delivers nothing. `remove` never writes back the table it
  restores in memory: `Remove` and `RemoveThenInit` say exactly when the next mount then disagrees
  with what was reported, `LostRemoval` is a run in which it does. The saved file table is kept as
  entries, not as bytes. File names are strings of fewer than 32 characters. VenomFS sizes are exact
  up to 2^41 - 512 bytes (`SizesExact`), which `Write` asks for.
* The validator lets segments reach into the stack window (`AcceptedOverStack`); the stack pages
  then replace theirs and their frames are lost, which `Run` states exactly. Bytes of data frames
  are kept beside the page tables.
* FAT32 volumes are such that byte offsets in the FAT and disk addresses fit 32 bits, which `mount`
  does not check; those the tool builds have at most 0x0FFFFFF5 clusters, beyond which cluster
  numbers meet the end and bad marks.
* Shifts and masks are division and remainder; `PteBits`, `PowerTrick` and `PowerTrick8` relate the
  words to them.

## Model

| member | source | states |
|---|---|---|
| `TaskRuns.ReleasedExactlyOnce` | kernel/task.cpp:378-429 | In every state of every run: each kernel stack and private PML4 is held in at most one place, and has been released exactly as often as it was given out and is no longer held; no release hits the stack or CR3 in use; the task that exits always finds the cleanup slot empty |
| `TaskRuns.NothingLeaks` | kernel/task.cpp:47-63 | What was given out and not yet released is, with an empty cleanup slot, held by a task that has not exited |
| `TaskRuns.ChildListsExact` | kernel/task.cpp:84-106 | In every reachable state a child list has no duplicates and is exactly the live tasks naming its owner as parent; no parent is Dead or a Zombie; a task blocked in wait_for_child has no Zombie child |
| `TaskRuns.DeliveredOnceUnchanged` | kernel/task.cpp:353-376 | As long as no slot has been used 2^56 times, an exit code is delivered at most once, after the exit, and is the code the task exited with |
| `TaskRuns.DeliveredToParent` | kernel/task.cpp:360-371 | A delivery goes to the task that is the Zombie's parent at that moment, and frees the slot |
| `TaskGap.GapExact` | kernel/task.cpp:358-374 | wait_for_child blocks with a child left to collect exactly if one is a Zombie when it blocks, whatever its scan saw before |
| `TaskGap.ClosedGap` | kernel/task.cpp:358-374 | If nothing happens between scan and block, the two are the wait step, and nobody is missed |
| `TaskGap.ExitUnnoticed` | kernel/task.cpp:414-418 | A child that exits while its parent is not blocked wakes nobody and stays on the list as a Zombie |
| `TaskGap.LostWakeup` | kernel/task.cpp:337-342 | So a parent that runs next and blocks after an old scan sleeps with a child to collect |
| `TaskGap.LosesOne` | kernel/task.cpp:358-374 | A reachable run in which that happens: the scan finds nobody, ticks pass the processor to the child, it exits, and the parent blocks |
| `TaskRuns.StepKeepsGood` | kernel/task.cpp:289-429 | Every step (create, exit, wait, block, unblock, sleep, yield, tick, first run) keeps the whole invariant: placement on stack and CR3, family, resource account, numbering, history |
| `TaskRuns.ReachableGood` | kernel/task.cpp:189-224 | The invariant holds in every state reachable from what init leaves |
| `TaskInvariants.StepKeepsFamily` | kernel/task.cpp:378-421 | Every step keeps child lists and parent links exact, including the splice of all orphans onto init |
| `TaskInvariants.AdoptedFamily` | kernel/task.cpp:396-412 | Handing a whole list to init leaves exact, duplicate-free lists everywhere |
| `TaskInvariants.StepPlaces` | kernel/task.cpp:289-327 | Between steps exactly one task is Running, on its own stack and address space, and leftovers of an exited task wait only for a task still before its trampoline check |
| `TaskResources.StepAccounts` | kernel/task.cpp:47-63 | Every step keeps given out = released + held for every resource, and every release safe |
| `TaskRuns.StepHistory` | kernel/task.cpp:353-429 | Every step keeps the record of exits and deliveries consistent with the table |
| `TaskFairness.ReadyIsChosen` | kernel/scheduler.cpp:52-68 | A task Ready all along a stretch of a run is passed over in fewer than 5 * (slots - 1) ticks, whatever else happens |
| `TaskFairness.PassedOver` | kernel/scheduler.cpp:58-66 | Each rescheduling that passes over a Ready task brings it strictly nearer, so it is passed over fewer times than its slot distance |
| `TaskFairness.TicksReschedule` | kernel/scheduler.cpp:44-50 | Every fifth tick reschedules |
| `TaskFairness.StepAsleep` | kernel/scheduler.cpp:32-40 | A step ends a sleep exactly if it is a tick that reaches the wake tick |
| `TaskFairness.NotWokenEarly` | kernel/scheduler.cpp:32-40 | A sleeper sleeps at least until its wake tick along every run |
| `TaskFairness.SleepsLongEnough` | kernel/task.cpp:344-351 | sleep_current(n) lasts at least n ticks unless now + n wraps at 2^64 |
| `TaskEffects.WaitCollects` | kernel/task.cpp:358-371 | A wait with a Zombie child collects the first such: Dead and off the list, its code delivered to the caller and nothing else in the record, the caller Running on, nobody else touched |
| `TaskEffects.WaitBlocks` | kernel/task.cpp:353-376 | A first wait without children returns at once; a wait with children but no Zombie blocks the caller in the loop, hands over the processor and delivers nothing |
| `TaskEffects.ExitEffect` | kernel/task.cpp:378-429 | An exit leaves a Zombie, or a Dead task if it has no parent, with its code recorded and its stack and address space waiting to be released; every orphan is init's, last first; the parent and init wake if blocked; nobody else changes, and the next Ready task runs |
| `TaskEffects.ExitReachesParent` | kernel/task.cpp:353-418 | In every run a task blocked in wait_for_child whose child exits gets the processor within 5 * (slots - 1) ticks with that child still to collect |
| `TaskEffects.ExpectsKept` | kernel/task.cpp:353-429 | Nobody but its parent takes a Zombie away |
| `TaskEffects.CreateEffect` | kernel/task.cpp:135-244 | The first usable slot becomes a Ready child of the caller with exactly this stack and address space, held nowhere else; without a slot or a stack nothing changes |
| `TaskEffects.BlockEffect` | kernel/task.cpp:329-335 | The caller is Blocked and the processor handed over |
| `TaskEffects.SleepEffect` | kernel/task.cpp:344-351 | The caller is Sleeping until now + n modulo 2^64 and the processor handed over |
| `TaskEffects.YieldEffect` | kernel/scheduler.cpp:70-72 | The processor is handed over, or kept if nobody is Ready |
| `TaskEffects.RescheduleHandsOver` | kernel/scheduler.cpp:52-68 | It goes to the Ready task nearest in cyclic order, on its stack and in its address space, which releases what an exited task left unless it is new; with none nothing changes |
| `TaskEffects.UnblockEffect` | kernel/task.cpp:337-342 | A Blocked task becomes Ready and nothing else happens |
| `TaskEffects.TickEffect` | kernel/scheduler.cpp:32-50 | Exactly the sleepers whose time has come become Ready, and at every fifth tick the processor is handed over |
| `TaskEffects.TickWakes` | kernel/scheduler.cpp:32-40 | A sleeper whose time has come is Ready after the tick, or Running if that tick chose it; nothing else of it changes |
| `TaskEffects.ReadyRuns` | kernel/scheduler.cpp:52-68 | In every run a Ready task is Running before 5 * (slots - 1) more ticks are over |
| `TaskEffects.SleeperRuns` | kernel/task.cpp:344-351 | In every run a sleeper is Running before 5 * (slots - 1) ticks have gone by after its wake tick |
| `TaskEffects.TrampolineEffect` | kernel/task.cpp:177-187 | A new task that nothing interrupts reaches its entry function, having released exactly what an exited task left |
| `Pids.UnpackPid` | kernel/task.cpp:25-35 | Unpacking a PID gives the slot back, and the generation modulo 2^56 |
| `Pids.PidCollision` | kernel/task.cpp:25-27 | Two PIDs are equal exactly if the slots are and the generations are modulo 2^56 |
| `Pids.PidReissued` | kernel/task.cpp:75-82 | A PID the guard of find_free_slot lets be issued twice |
| `TaskLinks.UnlinkLinked` | kernel/task.cpp:89-106 | Relinking around a child leaves a list linked by PID without it |
| `TaskLinks.CreateLinkage` | kernel/task.cpp:84-87 | Pushing a new child keeps all PID-linked lists intact |
| `TaskLinks.ReapLinkage` | kernel/task.cpp:364-370 | Reaping a child keeps all PID-linked lists intact |
| `TaskLinks.AdoptLinkage` | kernel/task.cpp:396-412 | Moving every child to init keeps all PID-linked lists intact |
| `TaskLinks.NotFound` | kernel/task.cpp:279-287 | find_by_pid finds nobody exactly if no live task has the PID |
| `TaskLinks.NumberedPids` | kernel/task.cpp:279-287 | In every state of the machine each live task carries the PID of its own slot |
| `TaskTable.Table.constructor` | kernel/task.cpp:189-224 | init leaves the boot state of the model |
| `TaskTable.Table.FindByPid` | kernel/task.cpp:279-287 | A slot found holds the live task with the PID; none found means no live task has it |
| `TaskTable.Table.FindFreeSlot` | kernel/task.cpp:75-82 | The first Dead slot with a generation left, or none exists |
| `TaskTable.Table.RemoveChild` | kernel/task.cpp:89-106 | The list is relinked around the child; unchanged if the child is not on it |
| `TaskTable.Table.ReapPendingCleanup` | kernel/task.cpp:47-63 | The model's release of the pending stack and PML4 |
| `TaskTable.Table.SwitchTo` | kernel/task.cpp:289-327 | Refines the model's switch, including the deferred release |
| `TaskTable.Table.Reschedule` | kernel/scheduler.cpp:52-68 | The cyclic scan picks the model's next Ready task and switches to it |
| `TaskTable.Table.Tick` | kernel/scheduler.cpp:44-50 | Refines the tick step and keeps the invariant |
| `TaskTable.Table.Yield` | kernel/scheduler.cpp:70-72 | Refines the yield step and keeps the invariant |
| `TaskTable.Table.BlockCurrent` | kernel/task.cpp:329-335 | Refines the block step and keeps the invariant |
| `TaskTable.Table.UnblockTask` | kernel/task.cpp:337-342 | A Blocked task with the PID is Ready afterwards, and nothing else changes; keeps the invariant |
| `TaskTable.Table.SleepCurrent` | kernel/task.cpp:344-351 | Refines the sleep step and keeps the invariant |
| `TaskTable.Table.Create` | kernel/task.cpp:135-244 | Refines the create step and keeps the invariant; fails exactly without a usable slot or a stack, changing nothing; otherwise the slot returned holds a new Ready child of the caller on exactly that stack and address space |
| `TaskTable.Table.WaitForChild` | kernel/task.cpp:353-376 | One pass refines the wait step: no children exactly if the first pass finds an empty list, a child reported exactly if one is a Zombie, which is then the first such, with its PID and exit code, collected |
| `TaskTable.Table.AdoptChildren` | kernel/task.cpp:397-411 | The adoption loop splices the whole list onto init, in the model's order |
| `TaskTable.Table.ExitCurrent` | kernel/task.cpp:378-429 | Refines the exit step and keeps the invariant |
| `TaskTable.Table.Trampoline` | kernel/task.cpp:177-187 | Refines the four trampoline steps a new task goes through with interrupts on |
| `Bitmap.SetTest` | kernel/pmm.cpp:27-37 | Setting or clearing one bit of a packed bitmap changes that bit only |
| `Frames.FrameAllocator.AllocFrame` | kernel/pmm.cpp:93-102 | The lowest free frame is taken and counted; 0 and no change exactly if none is free |
| `Frames.FrameAllocator.FreeFrame` | kernel/pmm.cpp:104-113 | Exactly an aligned, managed frame in use is freed |
| `Frames.FrameAllocator.MarkRangeUsed` | kernel/pmm.cpp:39-51 | Exactly the frames a range touches become used |
| `Frames.FrameAllocator.MarkRangeFree` | kernel/pmm.cpp:53-65 | Exactly the frames a range touches become free, partial ones too |
| `Frames.FrameAllocator.Init` | kernel/pmm.cpp:69-91 | A frame is in use afterwards exactly if it is low memory or the kernel's, or was in use and touches no usable region; frame 0 always is |
| `PageModel.WalkRights` | kernel/paging.cpp:26-42 | Where inner entries grant everything, the rights of a full walk are those of the entry it ends in |
| `PageModel.InnerKeepsWalk` | kernel/paging.cpp:26-42 | Widening an inner entry, or hooking in an empty table, changes no translation |
| `PageModel.TreeKept` | kernel/paging.cpp:26-42 | A change at one entry keeps every table reachable by exactly one path |
| `Paging.SamePage` | kernel/paging.cpp:60-64 | Two addresses take the same four indices exactly if they lie in the same page modulo 2^48 |
| `Paging.PathNumber` | kernel/paging.cpp:60-64 | The four indices, nine bits each, the highest first, are bits 12 to 47 of the address |
| `Paging.AddressRegions` | kernel/paging.cpp:60-64 | Paths outside the shared entry are the addresses from 1 GiB; PML4 slot 0 ends at 2^39 |
| `Paging.AddressSpaces.GetOrCreateTable` | kernel/paging.cpp:26-42 | The entry leads to a table afterwards, or no frame is left and nothing changed; only that entry changed, by at most one fresh frame; the tree and rights invariants stay |
| `Paging.AddressSpaces.MapPageIn` | kernel/paging.cpp:57-89 | On success the translation of exactly one page changes; on success or failure every other page keeps frame and rights, other spaces are untouched, and the frames the space answers for grow by exactly the new tables and the owned page; it fails only for a misaligned address, under a large page, or with no frame left |
| `Paging.AddressSpaces.UnmapPage` | kernel/paging.cpp:95-137 | Succeeds exactly on a mapped 4 KiB page, makes it fault, changes no other translation, and frees exactly the tables left empty |
| `Paging.AddressSpaces.ProtectPage` | kernel/paging.cpp:139-163 | Succeeds exactly on a mapped 4 KiB page; its frame and every other translation stay; the rights invariant stays exactly if user access is asked for below user tables only |
| `Paging.AddressSpaces.CreateAddressSpace` | kernel/paging.cpp:165-189 | A new space shares the kernel's first gigabyte, owns two fresh frames and nothing else; it fails, and changes nothing, exactly without the kernel's first PML4 entry or with fewer than two frames free |
| `Paging.AddressSpaces.DestroyAddressSpace` | kernel/paging.cpp:191-217 | Frees exactly what the space answers for through PML4 slot 0 |
| `Paging.OtherSpaceKept` | kernel/paging.cpp:57-89 | A change to one space's own tables changes no other space |
| `SpaceLife.MapOwned` | kernel/process.cpp:70-75 | A fresh frame is mapped as an owned page or given back; used = base + owned stays exact, the frame of a page mapped over counting as lost; at most three more frames are taken, and it fails only for a misaligned address, under a large page, or with no frame free but this one |
| `SpaceLife.OvermappedFrame` | kernel/paging.cpp:82-84 | Mapping over an owned page leaves its old frame in use with no owner |
| `SpaceLife.DestroyExact` | kernel/paging.cpp:191-217 | Destroying gives back everything exactly if PML4 slots 1 to 511 are empty, and never a frame of before |
| `SpaceLife.Life` | kernel/paging.cpp:165-217 | Create, any owned mappings of fresh frames some of which fail, destroy: the kernel's translations never change; with all pages below 2^39 the used frames are restored exactly if no page was mapped twice, and they are not if one above was mapped; nothing is created only for want of two frames or of the kernel's entry, and an aligned page is left unmapped only with no frame free at that point but the one given back, each page taking at most four |
| `SpaceLife.MapThenUnmap` | kernel/paging.cpp:48-137 | Without empty tables, mapping an unmapped page and unmapping it restores every translation and the exact set of used frames |
| `UserCopy.PageIsUserAccessible` | kernel/usercopy.cpp:26-55 | Agrees with the processor's full walk though writability is tested in the last entry only |
| `UserCopy.ValidateUserRange` | kernel/usercopy.cpp:59-77 | A non-empty range is accepted exactly if it does not wrap, lies in the user window, and user mode is granted every byte |
| `PteBits.WidenWord` | kernel/paging.cpp:27-31 | The word operation widens a present entry and nothing else |
| `PteBits.TableWord` | kernel/paging.cpp:40 | The word written for a new table decodes to it |
| `PteBits.PageWord` | kernel/paging.cpp:83 | The word written for a page decodes to it |
| `WxPages.CountWxPages` | kernel/paging.cpp:265-294 | The number of pages and large pages outside the shared map that are writable and executable; zero exactly if no address there translates to such memory |
| `KernelMap.KernelTree` | boot/stage2.asm:114-147 | The boot tables, and those with the image split up, form a tree with the rights invariant and no user entry: what the operations on spaces ask of the kernel's |
| `KernelMap.BootWx` | boot/stage2.asm:125-143 | As booted, every address of the first gigabyte translates to itself, writable and not for user mode, and executable exactly below 2 MiB |
| `KernelMap.KernelWx` | kernel/paging.cpp:239-250 | Once the image is protected every address of the first gigabyte still translates to itself, not for user mode; its page is executable exactly in the kernel's text, and writable exactly outside text and read-only data |
| `KernelMap.Boot` | kernel/pmm.cpp:69-91 | After boot and init the kernel's space is one the other operations can start from |
| `KernelMap.ProtectKernelImage` | kernel/paging.cpp:222-257 | Splits the large page over the image exactly if the image ends within it and a frame is free; the kernel's space stays one the other operations can start from |
| `HeapTheorems.RunHealthy` | kernel/heap.cpp:138-247 | After any calls: blocks in address order tile exactly the frames taken, addresses and sizes are multiples of 16, and in use + free + 32 * blocks = 4096 * frames |
| `HeapTheorems.RunKeepsLive` | kernel/heap.cpp:138-229 | Along a stretch of a run whose growth never lands right below a live block, a block handed out stays live and unchanged until it is freed |
| `HeapTheorems.RunCoalesced` | kernel/heap.cpp:79-229 | After any calls whose growth is clean, no two adjacent blocks are both free |
| `HeapTheorems.LiveApart` | kernel/heap.cpp:138-170 | Two live blocks share no byte, and lie in frames the heap took |
| `HeapTheorems.AllocateGrants` | kernel/heap.cpp:144-169 | A request gets a new live block, large enough, beside the untouched others, or null and no change to them, exactly if the growth on the way lands below no live block |
| `HeapTheorems.MallocGrants` | kernel/heap.cpp:138-170 | The same for the size the caller asked for, for every request up to 2^64 - 16 |
| `HeapGrants.MallocNull` | kernel/heap.cpp:138-170 | kmalloc returns null exactly if no free block is large enough, neither at first nor after any growth the supply allows up to the 256th |
| `HeapGrants.MallocPlaces` | kernel/heap.cpp:144-162 | Otherwise, after as few growths as it takes, the lowest block that fits is taken, 64 bytes or more left over becoming a free block |
| `HeapGrants.MallocServes` | kernel/heap.cpp:144-166 | With n frames in a row above the heap, n at most 256, every request up to 4096 * n - 32 bytes is granted |
| `HeapGrants.EmptyHeapServes` | kernel/heap.cpp:144-166 | On the empty heap with frames in a row a request is granted exactly if it fits into them, of which 256 count |
| `HeapGrants.GrowOnTop` | kernel/heap.cpp:93-110 | A frame above the heap becomes a block at the end, or part of the last block if that is free and ends there |
| `HeapTheorems.AllocateSound` | kernel/heap.cpp:144-169 | Every request keeps order, tiling and the byte account, whatever frames come |
| `HeapTheorems.GrowSound` | kernel/heap.cpp:113-129 | Growth by a frame keeps order, tiling and the byte account |
| `HeapTheorems.GrowLive` | kernel/heap.cpp:79-111 | Growth keeps the live blocks exactly if none starts where the frame ends |
| `HeapTheorems.BuriedStays` | kernel/heap.cpp:83-91 | A block swallowed by growth is never live again in the call |
| `HeapTheorems.SwallowedBlock` | kernel/heap.cpp:83-91 | For every frame f, two requests served from frames f + 1 and f: the second result covers all of the first block, which nobody freed |
| `HeapTheorems.GrowCoalesced` | kernel/heap.cpp:79-111 | Growth keeps free neighbours joined under the same condition |
| `HeapTheorems.FreeExact` | kernel/heap.cpp:172-229 | kfree removes exactly the live block the pointer belongs to, and does nothing for any other pointer |
| `HeapTheorems.FreeUndoesMalloc` | kernel/heap.cpp:138-229 | Freeing what was just allocated without growth restores the heap exactly |
| `HeapTheorems.AlignedEnough` | kernel/heap.cpp:50-52 | The aligned size is enough exactly up to 2^64 - 16 |
| `HeapTheorems.AllocateAligned` | kernel/heap.cpp:138-170 | Every block and every pointer handed out stays 16-aligned |
| `HeapModel.ByteAccount` | kernel/heap.cpp:231-247 | In use + free + headers is the total of any block list |
| `HeapList.InsertAfter` | kernel/heap.cpp:94-110 | The two headers insert_free_block writes behind a block leave a list linked as the model's |
| `HeapList.InsertFirst` | kernel/heap.cpp:83-91 | The header it writes at the head does too |
| `HeapList.PlacedLinked` | kernel/heap.cpp:148-162 | The headers an allocation writes leave a list linked as the model's |
| `HeapList.ReleasedLinked` | kernel/heap.cpp:211-228 | The headers a release writes leave a list linked as the model's |
| `HeapAllocator.Allocator.InsertFreeBlock` | kernel/heap.cpp:79-111 | The linked list afterwards is the model's insertion |
| `HeapAllocator.Allocator.GrowHeap` | kernel/heap.cpp:113-129 | Grows exactly if a frame is free, as the model does, by a frame not yet in the heap |
| `HeapAllocator.Allocator.KMalloc` | kernel/heap.cpp:138-170 | Result and heap are the model's for the frames taken on the way, which are the lowest free ones in order; null only after 257 frames or with none left; with n free frames in a row above the heap, at most 256, and none below them, any request up to 4096 * n - 32 bytes is granted |
| `HeapAllocator.Allocator.KFree` | kernel/heap.cpp:172-229 | The heap is the model's; a block is freed exactly if the pointer is a live block's data pointer |
| `HeapAllocator.Allocator.IsTrackedBlock` | kernel/heap.cpp:72-77 | Found exactly if some block starts there |
| `HeapAllocator.Allocator.BytesInUse` | kernel/heap.cpp:231-238 | The sum of the live blocks' sizes |
| `HeapAllocator.Allocator.BytesFree` | kernel/heap.cpp:240-247 | The sum of the free blocks' sizes |
| `FsVolume.Volume.Write` | kernel/fs.cpp:232-360 | Under any disk faults: success stores exactly the data, failure leaves the name absent, no other file changes, and the bitmap stays the exact index of disjoint extents; the table on disk is that in memory whenever its write went through, also on failure; without a fault it fails only for a long name, a full table or too little space |
| `FsVolume.Volume.WriteInto` | kernel/fs.cpp:255-359 | Allocation, data, commit and each rollback of write |
| `FsVolume.Volume.ClaimSlot` | kernel/fs.cpp:238-248 | The old file is gone, the others stay, and the slot is unused |
| `FsVolume.Volume.Commit` | kernel/fs.cpp:324-357 | The entry is in the table and on disk, or taken back with its bits |
| `FsVolume.Volume.WriteData` | kernel/fs.cpp:283-310 | Success puts the padded data into the blocks in order; only those blocks are written |
| `FsVolume.Volume.Allocate` | kernel/fs.cpp:257-281 | Succeeds exactly if there is room; the blocks were free, are distinct, in the data region, as many as needed, and marked |
| `FsVolume.Volume.FindFreeRun` | kernel/fs.cpp:116-139 | The lowest start of enough free blocks in a row, or proof there is none |
| `FsVolume.Volume.FindFreeExtents` | kernel/fs.cpp:141-165 | The lowest free blocks, one extent a stretch, exactly if those come in at most four stretches |
| `FsSpace.TooFragmented` | kernel/fs.cpp:146-164 | A scan out of extents between two stretches means the lowest blocks need a fifth |
| `FsVolume.RoomExactly` | kernel/fs.cpp:255-275 | There is room for a file exactly if it needs no block, some stretch of free blocks is long enough, or the lowest free blocks, as many as needed, come in at most four stretches |
| `FsVolume.Volume.Read` | kernel/fs.cpp:362-392 | Succeeds exactly if the file exists and the disk does not fail; the buffer gets the file up to its capacity and is otherwise untouched; a disk fault leaves a prefix |
| `FsVolume.Volume.Remove` | kernel/fs.cpp:394-415 | Success, exactly if the file exists and both writes go through, removes the file and nothing else and saves the table; failure changes neither table nor bitmap in memory; the disk keeps its table if the file was absent, but holds the table without the file whenever the table write went through, so also if only the bitmap write failed |
| `FsVolume.Volume.RebuildBitmap` | kernel/fs.cpp:77-88 | For any table the rebuild of which stays inside the bitmap, the bits set afterwards are exactly its block numbers, reduced modulo 2^32 |
| `FsRebuild.InsideExact` | kernel/fs.cpp:77-88 | The rebuild writes inside the bitmap exactly if every extent of every used entry, counted from the data region modulo 2^32, ends within its 32768 bits |
| `FsRebuild.EscapingEntry` | kernel/fs.cpp:82-84 | An entry at sector 0 makes it write far behind the bitmap; one just past the data region does not |
| `FsRebuild.RebuiltIndexes` | kernel/fs.cpp:77-88 | For entries inside the data region the rebuilt bitmap is the index of the table |
| `FsModel.IndexUnique` | kernel/fs.cpp:77-88 | A table has only one bitmap, so the rebuilt one is the one kept up to date |
| `FsModel.RegionsApart` | kernel/fs.cpp:8-27 | No block of a file lies where superblock, table or bitmap are saved, nor past the disk; these do not overlap, and table and bitmap fit their places |
| `FsVolume.Volume.FreeEntry` | kernel/fs.cpp:99-114 | Entry and bits are cleared; the invariant stays |
| `FsVolume.Volume.Format` | kernel/fs.cpp:167-194 | On success an empty, consistent volume is in memory and on disk |
| `FsVolume.Volume.Init` | kernel/fs.cpp:198-220 | Succeeds exactly if the disk does; then a volume with the magic has the table saved on disk and the bits of its blocks set, valid exactly if the table is consistent, and any other is empty |
| `FsVolume.Volume.Find` | kernel/fs.cpp:90-97 | The first used entry with the name |
| `FsVolume.Volume.FileSize` | kernel/fs.cpp:226-230 | The length of the contents, -1 for no file |
| `FsVolume.Volume.WriteThenRead` | kernel/fs.cpp:232-392 | What a successful write stored is read back, however fragmented, unless the disk fails |
| `FsVolume.Volume.FormatThenWrite` | kernel/fs.cpp:167-360 | Without a disk fault a new volume takes a file under a short name exactly if it is no larger than 32494 * 512 bytes |
| `FsVolume.Volume.WriteThenInit` | kernel/fs.cpp:198-360 | A mount after a write, successful or not, that saved the table finds the map of files the write left in memory |
| `FsVolume.Volume.RemoveThenInit` | kernel/fs.cpp:198-415 | A mount after a remove, successful or not, that saved the table finds every file but this one, so also after a removal reported as failed because only the bitmap write did; if there was no file it finds all as before |
| `FsVolume.LostRemoval` | kernel/fs.cpp:394-412 | The failing run, for every volume and every file on it: the bitmap write fails, remove reports failure, and the next mount has lost the file |
| `FsModel.SizesExact` | kernel/fs.cpp:255 | A write past the space check records its true size and block count exactly up to 2^41 - 512 bytes |
| `FsModel.SizeWraps` | kernel/fs.cpp:325 | One byte more: no blocks and a size that is not zero |
| `FsModel.ChunksTake` | kernel/fs.cpp:291-301 | Cutting into zero-padded sectors and cutting off at the size gives the data back |
| `FsModel.OtherFile` | kernel/fs.cpp:232-360 | Replacing one entry changes no file under another name whose blocks were not written |
| `FsModel.FillConsistent` | kernel/fs.cpp:324-335 | A new entry in unmarked blocks under an unused name keeps names distinct and extents disjoint |
| `Elf.Validate` | kernel/elf.cpp:21-187 | Accepts exactly the files whose header and program headers lie in the file, whose segments lie in file and user space, page-disjoint, none both writable and executable, with the entry in one |
| `Elf.CheckSegments` | kernel/elf.cpp:78-162 | The loop with its table of earlier ranges accepts exactly pairwise page-disjoint valid segments |
| `Elf.CheckSegment` | kernel/elf.cpp:93-151 | The single tests, with their overflow guards, amount to the declarative condition |
| `Elf.PowerTrick` | kernel/elf.cpp:15-17 | x & (x - 1) is zero exactly for the powers of two |
| `PackedFields.PackedReads` | kernel/elf.hpp:33-60 | A packed structure written member by member is read back member by member, wherever it lies |
| `ElfLayout.PhdrRound` | kernel/elf.hpp:50-60 | A program header laid out as Elf64_Phdr is read as it was written |
| `ElfLayout.EhdrRound` | kernel/elf.hpp:33-48 | A file header laid out as Elf64_Ehdr is read as it was written |
| `ElfLayout.AcceptedExactly` | kernel/elf.cpp:21-187 | A file of such a header and table is accepted exactly if its fields are good |
| `ElfLayout.SegmentExactly` | kernel/elf.cpp:93-151 | The checks on a segment: one of five permissions, inside the file, between 1 GiB and 2^47, offset and address congruent modulo an alignment that is a power of two, and touching a page |
| `ElfLayout.DisjointExactly` | kernel/elf.cpp:144-160 | Two segments are kept apart exactly if no page holds addresses of both |
| `ElfLayout.BssAccepted` | kernel/elf.cpp:106-109 | An accepted file with p_filesz below p_memsz and different values in its fields |
| `Loader.FillFrame` | kernel/process.cpp:51-68 | A page gets the file's bytes where the segment has them and zeros elsewhere, reading inside the file only |
| `Loader.SegmentFlagsWx` | kernel/process.cpp:86-95 | No flags give a writable and executable page |
| `Loader.ImagePages` | kernel/process.cpp:34-77 | A page is in the image exactly if a loadable segment covers it |
| `Loader.ImageValue` | kernel/process.cpp:44-76 | The covering segment is the only one and decides rights and bytes |
| `Loader.LoadedByte` | kernel/process.cpp:32-82 | Every address of every segment outside the stack window translates to the file's byte, zero beyond p_filesz, with the rights asked for |
| `Loader.StackByte` | kernel/process.cpp:227-243 | Every address of the stack window translates to the byte prepared for it, writable and not executable, also where a segment has pages |
| `Loader.EntryMapped` | kernel/elf.cpp:169-181 | The entry point of an accepted file is mapped for user mode |
| `Loader.AcceptedOverStack` | kernel/elf.cpp:109-133 | A file the validator accepts although its segment lies in the stack window |
| `Loader.HeldAfter` | kernel/process.cpp:45-75 | One more page, or another in its place, or none on failure; all others keep frame, bytes and rights |
| `Loader.UnsharedAfter` | kernel/process.cpp:45-75 | No two pages ever share a frame |
| `ProcessRun.Runner.LoadSegments` | kernel/process.cpp:32-82 | On success the space holds exactly the image of the segments; on failure it still answers for every frame taken |
| `ProcessRun.Runner.MapStack` | kernel/process.cpp:227-243 | The four stack pages join the image; frames are lost exactly if the image had one of them |
| `ProcessRun.NoWxImage` | kernel/process.cpp:250-254 | An image without writable and executable pages passes the audit |
| `ProcessRun.ImageClear` | kernel/process.cpp:227-243 | The image has no page of the stack window exactly if no segment reaches into it |
| `ProcessRun.Runner.Populate` | kernel/process.cpp:211-254 | Segments, stack and audit: never refused by the audit; frames are lost exactly if a segment reaches into the stack window and the stack gets mapped; at most four frames a page are taken, and loading or mapping the stack fails only with no frame free but the one given back |
| `ProcessRun.Runner.Abandon` | kernel/process.cpp:211-262 | Destroying on a failure path restores the kernel's translations, and the used frames exactly if no page at or above 2^39 is held |
| `ProcessRun.Runner.Run` | kernel/process.cpp:167-264 | Rejected exactly if the validator refuses; never refused by the audit; started only with the whole image and the arguments in place; a failure gives all frames back if the segments lie below 2^39 and avoid the stack window, and if it comes after the stack is mapped, only then; every failure has its one reason (no frames left at that point, arguments that do not fit, no task), so with four frames a page to spare an accepted file starts exactly if the arguments fit and the task is created; the kernel's translations never change |
| `InitialStack.BuildInitialStack` | kernel/process.cpp:97-165 | Succeeds exactly if the arguments fit; a reader at the 16-aligned stack pointer finds exactly argc, argv, envp, both NULLs and the AT_NULL pair; nothing below is written |
| `InitialStack.Measure` | kernel/process.cpp:101-129 | Strings and words fit, in that order and aligned, exactly under the limits |
| `InitialStack.ReadBack` | kernel/process.cpp:131-161 | Reading the finished layout recovers every string and pointer |
| `Bytes.LeRound` | kernel/process.cpp:137-141 | Reading undoes writing of little-endian words |
| `FatVolume.Volume.Mount` | kernel/fat32.cpp:164-211 | Accepts exactly a boot sector that passes the checks, and then FAT and data lie inside the volume and the FAT describes every cluster |
| `FatModel.ClusterInside` | kernel/fat32.cpp:44-46 | Every sector of a valid cluster lies in the volume at a 32-bit address |
| `FatModel.EntryInside` | kernel/fat32.cpp:50-53 | So does its FAT entry, at a 32-bit offset |
| `FatVolume.Volume.NextCluster` | kernel/fat32.cpp:50-64 | Cached or not, the result is that of reading the FAT anew, unless the disk failed |
| `FatVolume.Volume.ReadChain` | kernel/fat32.cpp:240-273 | Over any FAT contents the loop ends and asks only for sectors of the volume; without a disk fault it succeeds exactly if the chain has a cluster for every byte wanted, and delivers the chain's bytes; the count is that of the bytes copied, but 0 where the step bound trips |
| `FatDirectory.ScanSector` | kernel/fat32.cpp:106-113 | A hit is a visible, wanted entry, an end mark ends the directory, and before either, or in the whole sector, no entry does |
| `FatDirectory.WalkDir` | kernel/fat32.cpp:99-119 | Over any FAT contents the walk ends and asks only for sectors of the volume; it reports the first wanted entry of the chain, its absence, or a broken or repeating chain |
| `FatDirectory.OutcomeUnique` | kernel/fat32.cpp:99-119 | What the volume holds decides what a walk without disk faults comes to |
| `FatDirectory.TooManySteps` | kernel/fat32.cpp:103 | The step bound trips only on a chain that repeats a cluster |
| `FatModel.Pigeonhole` | kernel/fat32.cpp:103 | More valid clusters in a row than there are: one comes twice |
| `FatVolume.PowerTrick8` | kernel/fat32.cpp:186 | The power-of-two test on a byte |
| `FatLayout.BootExactly` | kernel/fat32.cpp:164-211 | A boot sector, its members in the order of the FAT specification, is accepted exactly if it is that of a plain FAT32 volume whose FAT describes every cluster; the geometry is the one its members give |
| `FatLayout.LinkExact` | kernel/fat32.cpp:50-64 | The link of a cluster is the word at byte 4 * c of the FAT without its upper four bits; when it ends the chain, is an error, or is the next cluster |
| `FatLayout.ClustersTile` | kernel/fat32.cpp:46 | Every sector of the data region belongs to exactly one cluster |
| `FatLayout.ClustersInOrder` | kernel/fat32.cpp:46 | Cluster 2 begins it, clusters follow one another, sector by sector |
| `FatLayout.NextSector` | kernel/fat32.cpp:252-270 | A file is read sector after sector of its clusters, cluster after cluster of its chain |
| `FatLayout.EntryExactly` | kernel/fat32.cpp:121-123 | First cluster and size are taken from a directory entry as the FAT specification lays it out |
| `FatBuilder.FreeListComplete` | tools/mkfat32.py:47-50 | Plain or interleaved, the free list has every cluster exactly once |
| `FatBuilder.Builder.Alloc` | tools/mkfat32.py:53-61 | The next clusters of the list, chained in order and apart from all earlier chains, which keep their links |
| `FatBuilder.Builder.Fill` | tools/mkfat32.py:128-130 | A chain allocated earlier gets its content, and everything filled before stays |
| `FatBuilder.Builder.Store` | tools/mkfat32.py:63-69 | The file's chain and sectors are in place and those of all earlier files still are; fails exactly if the list runs out |
| `FatImage.ImageShows` | tools/mkfat32.py:146-156 | Links and data clusters in the image are what the reader sees |
| `FatImage.RoundTrip` | kernel/fat32.cpp:240-273 | A file stored in any order of distinct clusters is read back byte for byte |
| `FatImage.BuiltRoundTrip` | tools/mkfat32.py:53-130 | So is every file and directory of a builder, whatever was allocated or filled after it |
| `FatImage.ReadStored` | kernel/fat32.cpp:252-272 | The driver returns exactly the stored content unless the disk fails |
| `FatImage.ImageMounts` | tools/mkfat32.py:132-140 | The driver mounts every volume the tool builds, with the tool's geometry |
| `FatFiles.EntryRound` | kernel/fat32.cpp:121-123 | The driver reads name, attribute, cluster and size of a directory entry as the tool wrote them |
| `FatFiles.LookupFinds` | kernel/fat32.cpp:99-119 | Without a disk fault a walk of the tool's directory finds the first entry with the name |
| `FatFiles.LookupAbsent` | kernel/fat32.cpp:99-119 | A name no entry has is absent, which is no failure |
| `FatFiles.BuildRoot` | tools/mkfat32.py:47-130 | A volume with files in its root directory is built exactly if the clusters suffice; every file and the directory are in place |
| `FatNames.ToShortName` | kernel/fat32.cpp:69-88 | Accepts exactly a name of one to eight characters, alone or with a dot and one to three more, and gives its eleven bytes in capitals |
| `FatNames.NamesAgree` | tools/mkfat32.py:22-26 | A name the tool stores can be given to the driver exactly if no dot ends it and no second dot follows |
| `FatNames.NamesDiffer` | tools/mkfat32.py:22-26 | Two names the tool stores and the driver refuses |
| `FatNames.PartsJoined` | kernel/fat32.cpp:130-141 | Joining parts with slashes and taking them apart gives them back |
| `FatPath.Resolve` | kernel/fat32.cpp:127-160 | Over any volume: without a disk fault a path leads where its parts do one after the other, each looked up in the directory before, and nowhere after a fault |
| `FatPath.FollowsUnique` | kernel/fat32.cpp:127-160 | What the volume holds decides where a path leads |
| `FatPath.WayFollowed` | kernel/fat32.cpp:127-160 | Through directories laid out as the tool does, of any depth, a path leads to the entry its parts name, and nowhere else |
| `FatPath.StepMisses` | kernel/fat32.cpp:127-160 | A name the directory does not have leads nowhere |
| `FatPath.FileSize` | kernel/fat32.cpp:234-238 | The size of the file a path leads to, -1 for a directory or nothing |
| `FatPath.Read` | kernel/fat32.cpp:240-273 | Without a disk fault a path is read exactly if it leads to a file whose chain is long enough for the bytes wanted, which are then in the buffer, the rest of it untouched |
| `FatPath.BuildMountRead` | tools/mkfat32.py:22-156 | Files are built into a volume under 8.3 names, the volume mounted, and a path naming one of them read: unless the disk fails, the bytes that come back are those that went in, of the first file with that short name |

## Left out

- Boot code, context-switch and interrupt stubs, port input and output, VGA, keyboard, shell, game: machine-level code and user interface; `switch_context` changes which stack is current.
- `kernel/interrupts.cpp`, `kernel/ring3.cpp`, CR0, MSR and TLB access: hardware effects; CR3 is a variable.
- The self tests: finite examples.
- Crash consistency of VenomFS between single sector writes: the code does not aim for it.
- The copy loops of `copy_from_user` and `copy_to_user`: one assignment per byte after the range check.
- `name_equals` and `copy_name` on NUL-terminated buffers: names are compared as strings.
- The packed layout of the file table and superblock: the disk keeps the table and the magic as values.
- Subdirectories of the tool (`write_dir_content`) and `list` of the driver: they repeat for each directory what is proved of the root directory; paths through directories are followed on any volume.
- Negative counts and null pointers in the argument lists of `build_initial_stack`: lists of strings have neither.
- Writes of kernel code through allocated pointers: clients of the heap stay inside their blocks.
- FsVolume.Volume.Write: asks for at most 2^41 - 512 bytes, because beyond that the block count wraps and the stored size is wrong.
- Paging.AddressSpaces.MapPageIn: asks for pages from 1 GiB on, because below that a refused mapping still changes the shared kernel entry.
- TaskRuns.DeliveredOnceUnchanged: asks for fewer than 2^56 uses of each slot, because from then on a PID names two tasks.
- FatVolume.Volume.NextCluster: asks that byte offsets in the FAT and disk addresses fit 32 bits, because beyond that the source computes with the wrapped ones.
- FatVolume.Volume.ReadChain: asks for the same.
- FsVolume.Volume.Init: asks that every extent of a used entry ends within the bitmap, because otherwise the source writes outside it (`InsideExact`, `EscapingEntry`); a saved entry has the extents that are read, so an extent count above four, with which the source reads past the entry, is not modelled; after a failure nothing is stated about the tables in memory.
- FsVolume.Volume.RebuildBitmap: asks for the same.
- FatFiles.BuildRoot: files lie in the root directory, and names are the eleven bytes the tool makes of them; two files may have the same.
- FatPath.BuildMountRead: files lie in the root directory and have ASCII names; of two with the same eleven bytes the driver reads the first.

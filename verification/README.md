# A verified model of the driver's stateful cores

This project models, in Dafny, the algorithms of a user-mode GPU driver and runtime that keep state which everything
else relies on, and proves what they promise. The rest of the repository is mostly calls into the kernel and into a
device model.

| File | What it models |
|---|---|
| `PageTable`, `PageTableProofs`, `AddressSpace`, `ProcessVM` | The four-level device page table that `ProcessVM::mmap` edits in place, for any page size, number of entries and entry size, and the buffer-object map that drives it. The class is proved to do what a pure update does; the update is proved, by induction on the levels, to change exactly the requested bytes, and a run of updates to answer like a flat last-writer-wins map. |
| `StagedCopy` | The three copy pipelines through pinned buffers. An asynchronous copy is a pending operation that runs at any later step at which its dependency is 0; the pipelines are proved for every schedule. |
| `HeapBlocks`, `HeapState`, `SimpleHeap` | The best-fit sub-allocator with its free list, fragment maps and block cache. |
| `ArenaTiles`, `FreeNodes`, `ArenaSteps`, `Allocator` | The address-ordered free list threaded through a node map: first fit, last fit, free with merging. The map is proved to mirror a row of tiles. |
| `InFlight`, `CommandQueue` | The list of commands in flight, the drain recursion, release fences before a host wait and across queues, and the slots of the hardware rings, which queues hold in turn. |
| `HwQueues` | Creating, stealing and giving up hardware queues, over the queues and rings of `CommandQueue`. |
| `Pools` | The signal pool and the kernarg pool. |
| `PacketRing` | The multi-producer packet ring as a state machine, over whole runs with any number of producers. |
| `PointerTracker` | The range-keyed pointer tracker and its byte totals. |
| `Apertures` | The aligned area with guard space, and the search for a reservation that is split into two apertures. |
| `Arithmetic`, `Wrappers` | Division and rounding; `Option`. |

Classes carry the fields that the C++ classes update. Code that runs under a mutex, and an atomic operation on an
index, is one step. What the operating system, the device or the block allocator answers is an input, free within what
they promise: a new mapping overlaps no old one, a new block no lent one, a page from `BlockAlloc` is new. Each operation
says exactly when it fails.

## Where the code does less than it seems to

Each of these is a lemma or a contract that says exactly when the code does what it is meant to do.

- `ProcessVM::mmap` leaves out the last byte of a request exactly when that byte is the first of a page
  (`AddressSpace.RoundingCovers`); for whole pages it covers the request.
- The write-back of the root table to the device scales its source pointer twice. The device's copy equals the host's
  exactly when the range starts in the first root entry (`AddressSpace.DeviceRootMirrors`). The model, like the comment
  in the code, takes the host copy as the table.
- The peer-to-peer copy subtracts whole buffers from unsigned counters. It stays inside the transfer exactly when the
  size is a multiple of the buffer size (`StagedCopy.PeerInBoundsExactly`).
- A `SimpleHeap::free` of a fragment of a discarded block leaves the free flag of the joined fragment as it was. The freed
  fragment stays marked allocated, though nobody holds it, exactly when no free fragment lies right below it
  (`HeapBlocks.UsersAfterFree`), and a free releases the block exactly when all its other fragments are marked free
  (`HeapBlocks.ReleasedExactly`, `SimpleHeap.SimpleHeap.Free`). So when the holders of all allocations of a discarded block
  free them, in any order, the last free releases it exactly when they free neighbouring allocations upwards and one at the
  start of the block last (`HeapBlocks.LastUserReleasesExactly`, `HeapBlocks.PlannedExactly`). Two allocations from a new
  heap are enough for nobody to hold anything while the heap holds a block (`SimpleHeap.LeakDiscardedPair`), and no later
  calls give it back unless somebody frees the address again that nobody holds (`SimpleHeap.DeadForEver`).
- `Allocator::free` of a node with a length above the node's own is not caught. The list stays right, but
  `total_free` does so exactly when the length was the node's own (`Allocator.Allocator.Free`). With a length below the
  node's own, 0 included, the rest is linked in behind a used node and the guard at the bottom gets a node before it, which
  no state of the arena has (`ArenaSteps.PartialFreeBreaks`, `ArenaSteps.BrokenIsNoRow`). The null pointer is not caught
  either: its lookup finds the guard at the bottom, which is free (`ArenaSteps.NullFindsTheGuard`).
- The list of asynchronous commands is never long enough to be compacted exactly when the window is no larger than the
  collection size, as with the constants of `csq.h` (`InFlight.NeverCompactedExactly`).
- A removal clears all older commands without looking at them. That leaves no outstanding packet without its command
  exactly when the removed command's own packet is complete (`InFlight.SweepIsSafeExactly`).
- A blocking marker takes over from the commands it depends on that a release is still needed. That is enough for the host
  to see what was written before a dependency, in every run, exactly if the dependency is a marker, the takeover is forced
  for every dependency, or the dependency's own queue has released it: a kernel never says that it needs a release
  (`InFlight.ReleasedAcrossQueuesExactly`). Behind a kernel the host can wait and not see what the kernel wrote
  (`CommandQueue.KernelDependencyIsLost`).
- `DlaDevice::queues` is never shortened, so the branch of `removeRocrQueue` that destroys a hardware queue, taken exactly
  when hardware queues outnumber recorded queues, is never taken while no queue is being constructed
  (`HwQueues.DlaDevice.Dispose`). A queue under construction has its hardware queue before it is recorded; disposing of
  another one then destroys a hardware queue although the limit allows both (`HwQueues.DestroyedWhileConstructing`).
- The second pass of a search for a hardware queue goes through the owner of each without a test. It ends at a null owner
  exactly when one without an owner comes before all whose owner is empty (`HwQueues.DlaDevice.StealIdle`), which the first
  pass does not exclude because the mutex is released in between (`HwQueues.NullOwnerBetweenPasses`).
- A queue that lost its hardware queue looks for another among those of normal priority, whatever its own priority is. It
  has one of its own priority exactly if it never lost one or its own is normal (`HwQueues.DlaDevice.OwnPriorityExactly`).
  When all hardware queues are of high priority, it finds none although its own list has one to give
  (`HwQueues.StealFromHighPriority`), in any number of rounds and whatever the other queues do in between, including
  constructors that have not ended (`HwQueues.SearchForEver`).
- `DlaQueue::dispose` waits for the queue while it holds the mutex that a search for a hardware queue locks. It never
  returns exactly when that wait has to enqueue a marker and the queue has lost its hardware queue
  (`HwQueues.DlaDevice.Dispose`), which a program can bring about (`HwQueues.DisposeDeadlock`).
- `init_svm_apertures` turns a limit inside the first huge page into the top of the address space, and rounds every other
  limit down (`Apertures.AlignedLimitKeeps`). Its two apertures are disjoint, but `init_allocator` hands an aperture's limit
  to its allocator as a length, so the arena of the coherent one always holds the first byte of the default one
  (`Apertures.ArenasOverlap`, `Apertures.MemMgr.InitSvmApertures`). When it tries to do without a reservation, the coherent
  aperture is empty and its arena gets a null base, which the arena's constructor asserts not to happen
  (`Apertures.MemMgr.InitMmapApertures`).

## Model

| member | source | states |
|---|---|---|
| PageTableProofs.PageCorrect | src/cmdio/emu/ProcessVM.cpp:41-90 | Updating one table page, new or old, at any level keeps the pages under it a tree that shares nothing with the rest, and changes the walk of exactly the clipped range |
| PageTableProofs.EntriesCorrect | src/cmdio/emu/ProcessVM.cpp:62-87 | The loop over a page's entries, from any entry on, does so for all bytes from that entry on |
| PageTableProofs.EntryCorrect | src/cmdio/emu/ProcessVM.cpp:64-86 | One entry's step does so for the bytes that entry covers, whether its child page existed or was just taken |
| PageTableProofs.ClipKeepsTarget | src/cmdio/emu/ProcessVM.cpp:43-49 | Clipping a range to a page moves the physical start along, so that every byte keeps its target frame |
| PageTableProofs.LeafEntry | src/cmdio/emu/ProcessVM.cpp:166-185 | The entry written in the leaf loop holds the target frame and permissions of the page it covers |
| PageTableProofs.SameTree | src/cmdio/emu/ProcessVM.cpp:54-58 | A change outside the pages under a table page changes neither that subtree nor any walk through it |
| AddressSpace.MapThenWalk | src/cmdio/emu/ProcessVM.cpp:5-39 | After an update every byte of the range walks to its frame with the given permissions, every other byte as before, and the table is still a tree of distinct pages |
| AddressSpace.TableIsLastCover | src/cmdio/emu/ProcessVM.cpp:5-188 | After any sequence of updates from an empty table the four-level walk equals the leaf of the latest request that covers the byte |
| AddressSpace.MapThenTranslate | src/cmdio/emu/ProcessVM.h:35-52 | The same in the caller's terms, for any base, size and physical address: exactly the rounded request changes |
| AddressSpace.WholePagesMove | src/cmdio/emu/ProcessVM.h:35-52 | For whole pages byte va + k comes to translate to byte pa + k, for all k below the size, and no other byte changes |
| AddressSpace.RoundingCovers | src/cmdio/emu/ProcessVM.h:37-38 | Rounding covers the whole request if and only if its last byte is not at a page boundary, and otherwise misses just that byte |
| AddressSpace.RoundingOfWholePages | src/cmdio/emu/ProcessVM.h:37-38 | A request of whole pages is not changed by rounding |
| AddressSpace.FlushMirrors | src/cmdio/emu/ProcessVM.cpp:38 | The flush makes the device root equal to the host root, whatever follows the host table, if and only if it starts at entry 0 |
| AddressSpace.DeviceRootMirrors | src/cmdio/emu/ProcessVM.cpp:5-39 | From equal roots, an update leaves equal roots if and only if the range starts below the span of the first root entry |
| AddressSpace.RootEntriesChanged | src/cmdio/emu/ProcessVM.cpp:12-36 | The root loop makes exactly the entries of the range valid and leaves the others alone |
| ProcessVM.ProcessVM.constructor | src/cmdio/emu/ProcessVM.h:15-31 | A new table maps nothing and satisfies the invariant |
| ProcessVM.ProcessVM.LoadPage | src/cmdio/emu/ProcessVM.cpp:54-58 | The scratch buffer holds the page's contents, or zeros for a new page |
| ProcessVM.ProcessVM.ClipRange | src/cmdio/emu/ProcessVM.cpp:43-49 | The mutated bounds are the pure clipped range |
| ProcessVM.ProcessVM.SetupPtePage | src/cmdio/emu/ProcessVM.cpp:144-188 | The in-place update of a leaf page through its buffer equals the pure update of level 0 |
| ProcessVM.ProcessVM.SetupPdePage | src/cmdio/emu/ProcessVM.cpp:93-142 | The same for level 1, with the leaf buffer reused for every child |
| ProcessVM.ProcessVM.SetupPd1Page | src/cmdio/emu/ProcessVM.cpp:41-90 | The same for level 2 |
| ProcessVM.ProcessVM.SetupPd0Page | src/cmdio/emu/ProcessVM.cpp:5-39 | The same for the root, with the device's copy after the flush |
| ProcessVM.ProcessVM.Mmap | src/cmdio/emu/ProcessVM.h:35-52 | Keeps the tree, and changes the translation of exactly the rounded request, each page to its frame and exactly the given permissions |
| ProcessVM.ModelCmdio.AllocMemory | src/cmdio/emu/ModelCmdio.cpp:573-589 | Records the buffer under its handle, unless the handle is recorded already |
| ProcessVM.ModelCmdio.FreeMemory | src/cmdio/emu/ModelCmdio.cpp:591-603 | Forgets the handle and no other; what it was mapped to stays in the table |
| ProcessVM.ModelCmdio.MapVA | src/cmdio/emu/ModelCmdio.cpp:145-168 | Exactly the pages of the rounded buffer change; each comes to translate to its frame, readable, and writable, executable and system memory exactly as the buffer's flags say; for whole pages every byte comes to translate to the byte at the same offset from the handle, and no other byte changes |
| ProcessVM.MapNewBuffer | src/cmdio/emu/ModelCmdio.cpp:145-168 | A buffer that is allocated and then mapped can be read, and written or executed exactly as the allocation asked, at every byte of its pages |
| StagedCopy.Int64Minus | src/driver/unpinned_copy_engine.cpp:294 | A signed counter minus an unsigned buffer size is the true difference for sizes below 2^63 |
| StagedCopy.Uint64Minus | src/driver/unpinned_copy_engine.cpp:525 | An unsigned counter below the buffer size wraps |
| StagedCopy.UnpinnedCopyEngine.constructor | src/driver/unpinned_copy_engine.cpp:80-122 | A new engine has at most 4 buffers of the given size, and nothing pending |
| StagedCopy.UnpinnedCopyEngine.Fire | src/driver/unpinned_copy_engine.cpp:568-570 | A pending copy that runs puts its bytes in place and lowers its signal; every issued byte is in place or still pending |
| StagedCopy.UnpinnedCopyEngine.SomeReady | src/driver/unpinned_copy_engine.cpp:531 | While copies are pending one of them can run, so no wait in the pipelines blocks forever |
| StagedCopy.UnpinnedCopyEngine.WaitSignal | src/driver/unpinned_copy_engine.cpp:300 | After the wait the copy behind the signal has run, and any others may have |
| StagedCopy.UnpinnedCopyEngine.CopyHostToDeviceStaging | src/driver/unpinned_copy_engine.cpp:280-327 | For every size, buffer size, buffer count and schedule the destination equals the source, nothing beyond it changes, and no copy is pending |
| StagedCopy.UnpinnedCopyEngine.CopyDeviceToHostStaging | src/driver/unpinned_copy_engine.cpp:431-483 | The same for device to host |
| StagedCopy.UnpinnedCopyEngine.CopyPeerToPeer | src/driver/unpinned_copy_engine.cpp:503-580 | The same for peer to peer, for sizes that are multiples of the buffer size |
| StagedCopy.UnpinnedCopyEngine.PeerLaunchRound | src/driver/unpinned_copy_engine.cpp:525-545 | A round's loads go into buffers whose earlier store is done, and the byte counter follows them |
| StagedCopy.UnpinnedCopyEngine.PeerForwardRound | src/driver/unpinned_copy_engine.cpp:548-573 | A round's stores wait for the loads of their buffers, and cover the next stretch of the destination |
| StagedCopy.PeerInBoundsExactly | src/driver/unpinned_copy_engine.cpp:517-573 | No turn of the peer loops copies outside the transfer if and only if the size is a multiple of the buffer size |
| HeapBlocks.SplitGood | src/common/simple_heap.h:114-121 | Sub-allocating from a free fragment keeps a block tiled, its listed records true and no two neighbours free, and adds exactly that allocation |
| HeapBlocks.FreeGood | src/common/simple_heap.h:164-222 | Freeing with both merges keeps the same, and touches no other allocation |
| HeapBlocks.FreedIsGone | src/common/simple_heap.h:217-220 | In a block that is not discarded the freed address is no longer allocated |
| HeapBlocks.DiscardGood | src/common/simple_heap.h:249-250 | Discarding a block keeps its tiling and allocations and takes all its records off the free list |
| HeapBlocks.ReleasedExactly | src/common/simple_heap.h:188-189 | A free leaves one fragment, so that the block is released, exactly when all other fragments are marked free |
| HeapBlocks.UsersAfterFree | src/common/simple_heap.h:211-220 | The freed address is no longer marked allocated, unless the block is discarded and no free fragment lies right below |
| HeapBlocks.LastUserReleasesExactly | src/common/simple_heap.h:232-253 | In every run of frees by all holders of a discarded block, in any order, the block is released exactly when neighbouring allocations are freed upwards and one at the start of the block last, and never before the last free |
| HeapBlocks.PlannedExactly | src/common/simple_heap.h:164-222 | That condition on the order, read off the block before the first free, holds exactly when every free but the last finds a free fragment right below |
| HeapBlocks.PairIsLost | src/common/simple_heap.h:211-220 | Freeing two neighbouring allocations that fill a discarded block changes nothing |
| HeapState.LiveDisjoint | src/common/simple_heap.h:86-149 | Two live allocations never overlap, and each lies in one listed block |
| HeapState.LocateKey | src/common/simple_heap.h:105-112 | A free list record names a free fragment of that size in the block found below its address |
| HeapState.AllocatingOk | src/common/simple_heap.h:98-123 | Allocating from a fragment keeps the whole invariant, and the record it inserts was not listed |
| HeapState.OpeningOk | src/common/simple_heap.h:132-148 | So does allocating from a new block, which the byte counters then include, and its record was not listed either |
| HeapState.ReopeningOk | src/common/simple_heap.h:126-148 | So does allocating from the newest cached block, which was never discarded |
| HeapState.FreeingOk | src/common/simple_heap.h:164-222 | So does a free that leaves other fragments in the block, and the record of the joined fragment was not listed |
| HeapState.ReleasingOk | src/common/simple_heap.h:189-200 | So does the free that empties a block: its bytes move from one counter to the other and it joins the cache, or, if it is discarded, they leave both and it is given back |
| HeapState.DroppingOk | src/common/simple_heap.h:204-207 | So does returning a cached block |
| HeapState.DiscardingOk | src/common/simple_heap.h:235-253 | So does discarding a block |
| SimpleHeap.SimpleHeap.LowerBound | src/common/simple_heap.h:94 | A smallest record that is large enough, or none is |
| SimpleHeap.SimpleHeap.MergeNeighbours | src/common/simple_heap.h:166-186 | The two in-place merges give one fragment for the run of neighbours, and unlist exactly their records |
| SimpleHeap.SimpleHeap.EvictOverLimit | src/common/simple_heap.h:203-208 | Returns the oldest cached blocks, each while the cache was over its limit, and no other block; afterwards at most one block is cached or the cache is at most twice the bytes in use |
| SimpleHeap.SimpleHeap.Alloc | src/common/simple_heap.h:86-149 | Keeps the invariant; fails exactly when the request is above the block size, or when no fragment fits, nothing is cached and the block allocator throws; otherwise an address nobody held, from a smallest sufficient fragment if there is one, else the newest cached block, which leaves the cache, else the block that is lent, which is then held, and never one in a discarded block; nothing else changes |
| SimpleHeap.SimpleHeap.Free | src/common/simple_heap.h:151-223 | Succeeds exactly for null and for the address of a fragment marked allocated, and takes exactly that allocation away; its block leaves the list exactly when all its other fragments are marked free; then a discarded block is given back, and any other one goes to the back of the cache, from whose front just as many blocks are given back as are over its limit; while the block stays listed, cache and held blocks stay as they are; the address stays marked allocated exactly when a discarded block stays and has no free fragment right below; never reopens a discarded block |
| SimpleHeap.SimpleHeap.Trim | src/common/simple_heap.h:225-230 | Returns every cached block: exactly the listed ones remain held |
| SimpleHeap.SimpleHeap.DiscardBlock | src/common/simple_heap.h:235-253 | Succeeds exactly for null and for addresses in a listed block, which alone becomes discarded and whose records leave the free list |
| SimpleHeap.AllocFreeAlloc | src/common/simple_heap.h:125-200 | From a new heap, what is allocated and freed leaves its one block in the cache with all its bytes, and the next allocation, whatever its size, returns the same address, empties the cache and takes no block |
| SimpleHeap.LeakDiscardedPair | src/common/simple_heap.h:86-253 | From a new heap, whatever block is lent, two allocations, a discard and two frees lead to a state in which nobody holds anything and the block is held and has a dead fragment |
| SimpleHeap.DeadForEver | src/common/simple_heap.h:86-253 | A discarded block with a dead fragment stays listed and held under every sequence of calls in which nobody frees that address again |
| ArenaTiles.FreeTileApart | src/device/MemObj.cpp:81-96 | Freeing leaves no two mergeable neighbours |
| ArenaTiles.FreeTileBytes | src/device/MemObj.cpp:71-74 | Freeing a tile adds exactly its bytes to the free ones |
| ArenaTiles.UsedAfterFree | src/device/MemObj.cpp:44-99 | Freeing takes exactly one tile out of use, and leaves every other tile in use where and as long as it was |
| ArenaTiles.UsedAfterAlloc | src/device/MemObj.cpp:101-188 | First fit and last fit put exactly one tile in use, of the bytes asked for at the start or at the end of the fit, and leave every other tile in use as it was |
| ArenaTiles.AllocThenFree | src/device/MemObj.cpp:44-151 | Freeing what first fit returned restores the previous tiling exactly |
| ArenaTiles.AllocHighThenFree | src/device/MemObj.cpp:44-188 | Freeing what last fit returned restores the previous tiling exactly |
| FreeNodes.LinkInOk | src/device/MemObj.cpp:7-15 | Linking a node in between two list neighbours gives the longer address-sorted doubly linked list and touches no other node |
| FreeNodes.LinkOutOk | src/device/MemObj.cpp:19-24 | Unlinking gives the shorter one and marks the node used |
| FreeNodes.MergeNodesOk | src/device/MemObj.cpp:27-42 | Merging takes the upper node off list and map and gives its length to the lower |
| FreeNodes.CutStep | src/device/MemObj.cpp:131-138 | Splitting a node mirrors cutting its tile |
| FreeNodes.CutHighStep | src/device/MemObj.cpp:171-176 | Splitting off a used upper node mirrors it too, without touching the list |
| FreeNodes.InsertStep | src/device/MemObj.cpp:89-93 | Linking a used node behind the nearest free one below it mirrors freeing its tile |
| FreeNodes.RemoveStep | src/device/MemObj.cpp:140 | Unlinking a node mirrors taking its tile |
| FreeNodes.MergeStep | src/device/MemObj.cpp:27-42 | Merging touching nodes mirrors joining their tiles |
| FreeNodes.TouchesBelow | src/device/MemObj.cpp:32 | The nearest free node below touches a node exactly when the tile below it is free |
| FreeNodes.TouchesAbove | src/device/MemObj.cpp:32 | The next free node touches a node exactly when the tile above it is free |
| ArenaSteps.AllocLowOk | src/device/MemObj.cpp:127-142 | Allocating at the start of a fitting node keeps the invariant and lowers the free bytes by the request |
| ArenaSteps.AllocHighOk | src/device/MemObj.cpp:163-180 | So does allocating at the end of one |
| ArenaSteps.FreeOk | src/device/MemObj.cpp:88-98 | So does linking a node back and merging it, which raises the free bytes by its length |
| ArenaSteps.PartialFreeBreaks | src/device/MemObj.cpp:74-93 | Freeing fewer bytes than any allocated node has, 0 included, puts a node before the bottom guard, whatever the new node's unset fields hold |
| ArenaSteps.NullFindsTheGuard | src/device/MemObj.cpp:45-57 | The null pointer is a key of the map, that of the bottom guard, which is free |
| Allocator.Allocator.constructor | src/device/inc/MemObj.h:102-124 | One free tile between the guards |
| Allocator.Allocator.InsertAfter | src/device/MemObj.cpp:7-15 | The four link writes |
| Allocator.Allocator.Merge | src/device/MemObj.cpp:27-42 | Joins exactly nodes that touch |
| Allocator.Allocator.FreeBefore | src/device/MemObj.cpp:89-91 | The walk down the keys ends at the nearest free node below |
| Allocator.Allocator.Alloc | src/device/MemObj.cpp:101-151 | Null exactly for 0 bytes or when no free node fits, else the lowest-address fit, split; keeps node map, list, tiling, no mergeable neighbours and total_free |
| Allocator.Allocator.AllocHighest | src/device/MemObj.cpp:153-188 | The same with the highest-address fit, taken from its end |
| Allocator.Allocator.Free | src/device/MemObj.cpp:44-99 | False exactly for an unknown address; the node becomes free and merges with its free neighbours; the accounting stays right if and only if the length is the node's |
| InFlight.Youngest | src/driver/csq_queue.cpp:247-255 | The last non-null command of the list owns the last packet, and if it has no signal then the last packet is a kernel's |
| InFlight.CompactIsSuffix | src/driver/csq_queue.cpp:666-670 | Compaction of a list whose nulls come first drops those and keeps the order of the rest |
| InFlight.RemovedOk | src/driver/csq_queue.cpp:626-671 | A removal keeps the nulls first and drops no command younger than its target |
| InFlight.SweepIsSafeExactly | src/driver/csq_queue.cpp:626-671 | Clearing a command and all older ones leaves no outstanding packet without its command exactly when its own packet is complete |
| InFlight.NeverCompactedExactly | src/driver/csq_queue.cpp:666-670 | No list that the protocol allows is long enough to be compacted, if and only if the window is no larger than the collection size |
| InFlight.LastIsReleased | src/driver/csq_queue.cpp:227-234 | If everything unreleased is followed by a system-scope marker then the last packet is no kernel |
| InFlight.AppendReleased | src/driver/csq_cmd.cpp:608-612 | A system-scope marker releases everything before it, and a packet that leaves nothing unreleased keeps all released |
| InFlight.ReleasedAcrossQueuesExactly | src/driver/csq_queue.cpp:542-608 | In every run of the waiting queue the host sees what was written before the dependency, if and only if the dependency is a marker, the takeover is forced, or its own queue has released it |
| InFlight.WriteSlot | src/driver/csq_cmd.cpp:242-257 | Writing the next slot overwrites no outstanding packet when fewer are outstanding than there are slots |
| CommandQueue.RocrQueue.AssignHccQueue | src/driver/csq_queue.cpp:945-949 | A ring with nothing outstanding passes to a queue without a hardware queue, whose next packets go behind the ring's old ones |
| CommandQueue.RocrQueue.WritePacket | src/driver/csq_cmd.cpp:242-275 | Writing a packet overwrites no outstanding one, whoever wrote it |
| CommandQueue.DlaQueue.RemoveAsyncOp | src/driver/csq_queue.cpp:626-671 | The sweep that stops at the first null clears all older entries, and only an overlong list is compacted |
| CommandQueue.DlaQueue.WaitComplete | src/driver/csq_cmd.cpp:723-743 | The command is complete, and, where lists are not compacted, exactly it and all older ones leave the list |
| CommandQueue.DlaQueue.WaitYoungestFirst | src/driver/csq_queue.cpp:245-260 | The first command waited on has a signal, and after the loop every packet is complete, also if a removal compacts the list meanwhile |
| CommandQueue.DlaQueue.Wait | src/driver/csq_queue.cpp:220-263 | Terminates; empties the list; every packet is complete, and every kernel is followed by a completed system-scope marker; afterwards the flag is set exactly if it was and flushing is not optimised |
| CommandQueue.DlaQueue.PushAsyncOp | src/driver/csq_queue.cpp:62-92 | Terminates; the list stays below the limit, at most reaching it inside a drain; drains exactly when the window is full, and else adds just this command; the flag stays unless the drain, with optimised flushing, clears it |
| CommandQueue.DlaQueue.Dispatch | src/driver/csq_cmd.cpp:242-275 | Writes the packet to a slot of the queue's present ring whose last packet is complete; the flag is false only if nothing unreleased lies after the last system-scope marker |
| CommandQueue.DlaQueue.EnqueueMarker | src/driver/csq_queue.cpp:515-529 | The marker is the last packet and the last command, and has a signal; afterwards the flag is set exactly if it still was when there was room and the scope is not the system; that is what the marker takes down for dependents, and it is false only if everything before it is released |
| CommandQueue.DlaQueue.EnqueueMarkerWithDependency | src/driver/csq_queue.cpp:542-608 | Fails exactly for too many dependencies; otherwise the last command is a marker with a signal, and it carries the need of a release exactly if some dependency, wherever it stands among nulls, is a marker that took one down, or the takeover is forced and there is a dependency; afterwards the flag is set exactly if it was when there was room or the marker carries a need, and the marker's scope is not the system |
| CommandQueue.TakesOverSqueezed | src/driver/inc/csq_cmd.h:285-293 | Dropping the null entries before the loop, which ends at the first null, makes it look at every dependency |
| CommandQueue.DlaQueue.InheritFrom | src/driver/csq_queue.cpp:555-598 | The loop carries a need exactly if some command of the array is a marker that took one down or the takeover is forced and there is a command; the flag is then set, and else as it was |
| CommandQueue.DlaQueue.DispatchHsaKernel | src/driver/csq_queue.cpp:893-942 | The kernel is the last packet, the flag is set, and it has a signal exactly when asked for or when flushing is not optimised |
| CommandQueue.DlaQueue.IsEmpty | src/driver/csq_queue.cpp:187-213 | True exactly when nothing is listed or the youngest command has a signal and all packets are complete; then nothing is outstanding on the queue's ring |
| CommandQueue.KernelDependencyIsLost | src/driver/inc/csq_cmd.h:63 | Two queues are reachable of which one has launched a kernel and the host has waited for a marker of the other behind it, without a release of what the kernel wrote |
| HwQueues.DlaDevice.CreateOrStealRocrQueue | src/driver/csq_device.cpp:229-298 | Creates one below the limit, tried once, and otherwise makes a first round; finds one of the priority exactly below the limit or when its list has one that is unowned or whose owner has nothing unfinished; keeps the links a partial bijection, every ring in order and the limit; a queue loses its hardware queue only when all its packets are complete |
| HwQueues.DlaDevice.Create | src/driver/csq_device.cpp:234-240 | The new hardware queue is the last of its list and the only change of the lists |
| HwQueues.DlaDevice.StealRound | src/driver/csq_device.cpp:247-297 | A round without interruption succeeds exactly when the list has one that is unowned or whose owner has nothing unfinished, and takes the first unowned one, else the first of the others |
| HwQueues.DlaDevice.StealIdle | src/driver/csq_device.cpp:273-290 | The second pass, in any state, takes the first whose owner has nothing unfinished, or goes through a null owner exactly when an unowned one comes before; a queue that keeps its own changes only if its youngest command has no signal, and then gets a marker |
| HwQueues.DlaDevice.Retry | src/driver/csq_device.cpp:247-297 | A further round, of a constructor at the queue's own priority or of a queue that lost its hardware queue at normal priority, succeeds exactly when that list has one to give |
| HwQueues.DlaDevice.Construct | src/driver/csq_queue.cpp:681-696 | A queue has its hardware queue, of its own priority, before it is recorded; without one it searches on |
| HwQueues.DlaDevice.Record | src/driver/csq_device.cpp:711-716 | Recording a constructed queue, whether or not another one has taken its hardware queue meanwhile, keeps the count: hardware queues and queues without one are no more than recorded queues and queues under construction |
| HwQueues.DlaDevice.CreateQueue | src/driver/csq_device.cpp:710-718 | Undisturbed, a new queue is recorded with a hardware queue of its priority exactly when one can be had |
| HwQueues.DlaDevice.AcquireLockedRocrQueue | src/driver/csq_queue.cpp:755-766 | A queue without a hardware queue gets one exactly below the limit or when the normal-priority list has one to give, and then one of normal priority |
| HwQueues.DlaDevice.OwnPriorityExactly | src/driver/csq_queue.cpp:755-766 | Between calls a recorded queue that never lost its hardware queue has one of its own priority, and any other one has its own priority exactly if that is normal |
| HwQueues.DlaDevice.OutstandingInSlot | src/driver/csq_device.cpp:273-290 | Between calls every outstanding packet of every ring is in its slot and is a packet of the ring's present owner, also after the ring changed hands |
| HwQueues.DlaDevice.Launch | src/driver/csq_cmd.cpp:340-352 | A launch keeps all this for every queue of the device, and writes the kernel exactly when a hardware queue is to be had |
| HwQueues.DlaDevice.Wait | src/driver/csq_queue.cpp:220-263 | So does a host wait, which needs a hardware queue only for a marker; afterwards every packet of the queue is complete and everything released |
| HwQueues.DlaDevice.Dispose | src/driver/csq_queue.cpp:706-744 | Never returns exactly when its wait needs a marker and the queue has no hardware queue; otherwise every packet is complete and released, the queue leaves, and its hardware queue is destroyed exactly when hardware queues outnumber recorded queues, which they do not while none is under construction |
| HwQueues.DlaDevice.RemoveRocrQueue | src/driver/csq_device.cpp:303-337 | Keeps the links, the lists and the rings of the others; one hardware queue less, the order of its list kept, exactly while they outnumber the recorded queues; else it becomes available to others |
| HwQueues.StealFromHighPriority | src/driver/csq_device.cpp:247-298 | For any limit a device is reachable in which a high-priority queue has lost its hardware queue, none is of normal priority, and the high-priority list has one to give |
| HwQueues.SearchForEver | src/driver/csq_device.cpp:247-298 | From there the queue finds none in any number of rounds, between which the other queues, those under construction and the hardware do anything |
| HwQueues.DisposeDeadlock | src/driver/csq_queue.cpp:718-722 | A state is reachable in which disposing of a queue never returns |
| HwQueues.DestroyedWhileConstructing | src/driver/csq_device.cpp:303-329 | For any limit of two or more, disposing of the one recorded queue while a second one is constructed destroys its hardware queue |
| HwQueues.NullOwnerBetweenPasses | src/driver/csq_device.cpp:263-279 | A disposal between the two passes makes the second go through a null owner |
| Pools.Search | src/driver/csq_context.cpp:231-266 | Finds a free slot such that every slot on the way to it from the cursor on, past the last slot to the first, is taken, exactly when a slot is free |
| Pools.HandedIsNew | src/driver/csq_context.cpp:227-308 | A slot that is handed out was nobody's, and the outstanding slots grow by exactly it |
| Pools.DlaContext.GetSignal | src/driver/csq_context.cpp:227-312 | A signal of value 1 that nobody holds, the next free one from the cursor on; the pool grows exactly when all are taken; the cursor goes to the slot after it, past the last slot to the first |
| Pools.DlaContext.ReleaseSignal | src/driver/csq_context.cpp:209-225 | The slot is free again and its signal holds 1; nothing for a null signal |
| Pools.KernargPool.GrowKernargBuffer | src/driver/csq_device.cpp:798-814 | The new buffers overlap nothing |
| Pools.KernargPool.GetKernargBuffer | src/driver/csq_device.cpp:818-926 | A buffer that overlaps no other one in use: of the pool for at most 512 bytes, else its own with index -1 |
| Pools.KernargPool.ReleaseKernargBuffer | src/driver/csq_device.cpp:781-795 | Exactly the slot, or exactly the buffer outside the pool, is given back |
| PacketRing.ReserveInv | src/drive/blit_cpdma.cpp:262 | A reservation keeps the invariant: reserved ranges are disjoint and contiguous |
| PacketRing.PassInv | src/drive/blit_cpdma.cpp:264-266 | Leaving the spin loop keeps it, also with an old read index |
| PacketRing.WritesFreeSlot | src/drive/blit_cpdma.cpp:294 | A producer writes a slot that is invalid and whose previous index is below the read index |
| PacketRing.PopulateInv | src/drive/blit_cpdma.cpp:278-295 | A write keeps the invariant |
| PacketRing.ConsumesInOrder | src/drive/blit_cpdma.cpp:278-295 | The processor reads exactly the packet written for the read index |
| PacketRing.RunReadsWhatWasSent | src/drive/blit_cpdma.cpp:259-295 | In every state of every run the packets read are those sent, in index order, and reservations are disjoint |
| PacketRing.RunConsumesWhatWasWritten | src/drive/blit_cpdma.cpp:278-295 | The packet that a producer writes for an index is the one the processor has read at that index, in every later state of every run |
| PacketRing.RunWritesFreeSlot | src/drive/blit_cpdma.cpp:259-295 | In every run no unread packet is overwritten |
| PacketRing.NeverStuck | src/drive/blit_cpdma.cpp:259-269 | While a producer is at work or a packet unread, some step other than a reservation is possible |
| PointerTracker.AmPointerTracker.LowerBound | src/driver/csq_pointer.cpp:55-63 | Search with the range comparator finds the first entry not wholly below the key |
| PointerTracker.AmPointerTracker.Find | src/driver/csq_pointer.cpp:177-183 | The one tracked range that contains the pointer, or the end if none does |
| PointerTracker.AmPointerTracker.Insert | src/driver/csq_pointer.cpp:157-165 | If a tracked range has a byte in common with the new one, nothing but the sequence number changes; else exactly the new range, from the pointer to its last byte, is added, in order |
| PointerTracker.AmPointerTracker.Remove | src/driver/csq_pointer.cpp:169-174 | Removes exactly the range that contains the pointer; 1 or 0 |
| PointerTracker.AmPointerTracker.Reset | src/driver/csq_pointer.cpp:188-214 | Exactly the other accelerators' ranges stay in order; counts the rest, and frees those the library allocated |
| PointerTracker.OthersStay | src/driver/csq_pointer.cpp:188-214 | An entry survives a reset exactly when it is another accelerator's |
| PointerTracker.ToFreeExactly | src/driver/csq_pointer.cpp:188-214 | A reset frees exactly the memory that the library allocated for the accelerator, each once and in order |
| PointerTracker.ResetBytes | src/driver/csq_pointer.cpp:188-214 | After a reset nothing is tracked for the accelerator, and for the others as much as before, whichever flags the entries have |
| PointerTracker.ClassesCoverAll | src/driver/csq_pointer.cpp:498-522 | What is managed in device memory, managed elsewhere and not managed sums to all bytes tracked for the accelerator |
| PointerTracker.AmPointerTracker.SizeInfo | src/driver/csq_pointer.cpp:498-525 | The three totals: managed and in device memory, managed and not, not managed |
| PointerTracker.InsertRaisesOne | src/driver/csq_pointer.cpp:498-525 | Tracking a range that overlaps none raises exactly one total of its accelerator by its size: device if managed and in device memory, host if managed and not, user if not managed; it raises no total of another accelerator |
| Apertures.MmapVma.GrowAlign | src/device/Vma.cpp:532-533 | The alignment is a power of two no smaller than asked for, and stops at the huge page size or above half of the size |
| Apertures.MmapVma.AllocateAreaAligned | src/device/Vma.cpp:515-570 | For whole pages the area is the first aligned one behind the guard pages of the mapping and inside the aperture, exactly it stays mapped although munmap takes whole pages only, and its guard space on both sides was unmapped before; on failure nothing stays mapped; it fails exactly for a fixed address, an aperture the processor cannot access, a mapping that is refused, or one whose first aligned area is out of range |
| Apertures.AlignedLimitKeeps | src/device/MemMgr.cpp:136 | The aligned limit does not exceed the limit if and only if the limit is not inside the first huge page, and otherwise is the top of the address space |
| Apertures.AlignedLimitIsGreatest | src/device/MemMgr.cpp:136 | For every other limit the aligned range ends at the greatest multiple of the huge page size that the range reaches |
| Apertures.AlignedBaseIsLeast | src/device/MemMgr.cpp:135 | The aligned base is the least multiple of the huge page size that is not below the base, or 0 if that does not fit in 64 bits |
| Apertures.MemMgr.TryReserve | src/device/MemMgr.cpp:171-192 | Terminates; asks at successive huge pages while half of the size is below the limit and gives back each start that is too high; ends with the first that is not, which alone stays mapped, or with nothing mapped exactly when a request is refused or no other start is worth one |
| Apertures.MemMgr.Search | src/device/MemMgr.cpp:169-210 | Terminates; halves the size until one gives a reservation with the minimum size below the limit, which alone stays mapped; fails exactly when no size down to the minimum gives one |
| Apertures.MemMgr.SplitReservation | src/device/MemMgr.cpp:231-250 | Two non-empty adjacent apertures, the coherent one aligned to 64 KB and a quarter of the reservation |
| Apertures.MemMgr.InitSvmApertures | src/device/MemMgr.cpp:120-262 | One reservation of at least 4 GB below the limit on success, cut at the limit and split; or, without one, a default aperture from the least huge page not below the base to the end of the last one inside the limit; none on failure, which means that no size down to 4 GB gives one; a second call changes nothing; an arena gets a null base exactly when the limit has 47 bits, a reservation is not insisted on and the alignment is at most a page |
| Apertures.MemMgr.InitMmapApertures | src/device/MemMgr.cpp:1898-1945 | Succeeds exactly when the alignment is at most a page and a page can be allocated; the arena of the coherent aperture has a null base exactly for such an alignment |
| Apertures.ArenasOverlap | src/device/inc/Vma.h:87-89 | Whatever the reservation, the two apertures are disjoint, but the arena of the coherent one holds the first byte of the default one |

## Left out

- Threads and the C++ memory model: regions under a mutex and atomic index operations are single steps, and raising a signal and launching the copy behind it are one step.
- Page table: physical address 0 (`malloc_pa_`), invalid mappings (`valid` = 0), the fields that are always 0, the permission bits of intermediate entries, requests that end beyond the four-level range or past 2^64, a `BlockAlloc` that runs out, and the device memory layout behind it.
- ProcessVM.ProcessVM.Mmap: does not cover physical address 0, for which the source takes memory of its own, nor a request whose rounding is empty, that is one byte at the start of a page, because it then changes nothing the caller can rely on.
- ProcessVM.ModelCmdio.MapVA: requires a recorded handle other than 0; for an unknown one the source goes on with the end of the map, because its assertion tests a string, and for 0 it takes memory of its own.
- ProcessVM.ModelCmdio.FreeMemory: does not return the memory to the device heap, which is not part of this model.
- StagedCopy.UnpinnedCopyEngine.CopyPeerToPeer: requires whole buffers, because PeerInBoundsExactly shows that any other size leaves the transfer.
- Staged copies: the pin-in-place strategies, failed launches (the source ignores them) and the dependency of a whole call; an asynchronous copy moves its bytes in one step.
- SimpleHeap.SimpleHeap.Free: a second free of a dead fragment succeeds, as in the source; the run theorem LastUserReleasesExactly is about each holder freeing once.
- SimpleHeap: the assertion on requests above the block size is modelled as the exception that follows it; zero-byte requests are not made. The heap in src/util and the device heap of the emulator are not part of this model.
- Allocator.Allocator.Free: covers lengths from the node's own on, because PartialFreeBreaks shows that a shorter one ruins the list; an address inside a node is unknown to the map; the null pointer, for which the source has a statement without its `return`, and a node that is free already are left to the assertion that stops them.
- Allocator: allocation at a fixed address, and pools that end at the top address or wrap; fields of a new node that the source leaves unset are set to the end of the map.
- CommandQueue.DlaQueue.WaitComplete: requires a command without a signal to be complete, because the source takes it to be so; nobody outside the queue holds such a command.
- Command queue: copy commands, dependencies between streams (their body is commented out), synchronous dispatch, HCC_SERIALIZE_KERNEL, acquire fences and with them the acquire bit of HCC_FORCE_CROSS_QUEUE_FLUSH and dependencies across devices, profiling, and an index that wraps at 2^64. A slot is chosen by remainder instead of a mask, the ring's size being a power of two.
- HwQueues.DlaDevice.CreateOrStealRocrQueue: ends after its first round when that finds nothing; the source goes on with rounds like Retry without end while every owner is busy.
- Hardware queues: the locks between queues and the device except where Dispose locks one twice. The two passes of one round are one step, except in NullOwnerBetweenPasses. A queue that needs a hardware queue looks for it when an operation starts; the source does when the operation writes its packet.
- Pools: clearing of kernarg buffers, and failures of the memory region.
- Packet ring: the contents of packets, the value written to the doorbell, reservations of no packet (which the source never makes) and an index that wraps at 2^64.
- Pointer tracker: the ordered map's tree (a sorted sequence searched by halving stands for it), ranges of no bytes (which its callers refuse), peer mappings and printing.
- Apertures.MmapVma.AllocateAreaAligned: requires whole pages, as the allocation call does (src/device/Device.cpp:132); for other sizes munmap refuses the end of the area and the padding above it stays mapped.
- Apertures: 64-bit overflow of a huge request, release of areas, and the aperture of each device.
- Everything else in the repository: ioctl forwarding, engine loading, topology, events, doorbells, attribute queries, code under `#if 0` and the copies of third-party code. It calls the parts above or other programs, and would only add easy members.

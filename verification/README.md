# Verified model of vmsh

vmsh attaches to a running hypervisor process, loads a small library into the guest kernel, and
serves the guest a block device and a console.  This project models the parts of vmsh where a
mistake corrupts a foreign kernel or a foreign process, and proves what they promise:

- the editor of the guest's live four-level page tables (section 4.5 of volume 3A of the Intel
  SDM), with its estimate of table memory, its restore on drop, and the lazy iterator over the
  same tables (`PageMath`, `PageTableEntry`, `PageWalk`, `PageVisit`, `PageTableEditor`, `PageMapping`,
  `PageTableSize`, `PageTableIterator`, `PageTableLeaves`);
- the physical memory around it: the downward allocator and the merged index from guest physical
  to host addresses (`PhysMemAllocator`, `PhysHostMap`);
- the start-up and shut-down handshake between the host and the guest kernel (`Handshake`);
- the `ptrace` machinery: the syscall injector that is handed between threads, and the wrapper
  around `ioctl(KVM_RUN)` (`Injector`, `WrapSyscall`);
- the block device executor (`BlockDevice`, over guest memory as the guest sees it, `GuestMemory`, and
  the transfers of `ProcessVm`);
- the relocating loader, from the layout of the segments to what the hardware of the guest reads
  (`Layout`, `Loader`, `LoadBinary`), and the core file writer (`CoreFile`), over `Bytes`;
- the file loops that run inside the guest kernel (`KernelFile`).

`dafny verify dfyconfig.toml` checks all of it.

Code that only computes is modelled by functions, code that updates objects or buffers by classes
and methods with loops, and the two protocols by transition systems with a program counter per
party.  Each method is tied by its contract to a specification function or predicate, and the
lemmas state what is promised about these.  Guest page tables are maps from frame numbers to
tables of 512 entries, and addresses are page numbers where only pages matter; `Walk` is the walk
of the hardware and the reference for everything the editor and the iterator do.

## What does not hold as stated

Some promises hold only under a condition.  For each there is a contract that states the condition
exactly, and for most a lemma with a failing input.

- `map_memory` maps the range it is asked for if and only if the range has no bad crossing: it
  stays inside one 1 GiB region or starts at a 2 MiB boundary, and it stays inside one 512 GiB
  region or its third-level start index is zero (`DeliversExactly`, `CrossingSkipsPages`).  All
  ranges inside the kernel image range are fine (`KernelRangeIsContiguous`).
- `estimate_page_table_size` is an upper bound if and only if the range straddles a boundary on at
  most one level (`EstimateSufficesExactly`, `EstimateCanFail`); inside one 1 GiB region it is
  (`EstimateSufficesInGib`).
- The device word passes through `Ready` or `Error` before `Terminating` if and only if the write of
  `notify` reached the guest (`AnnouncedExactly`, `LostWriteSkipsReady`).  If `terminate` fails, nothing keeps the guest from
  registering devices afterwards (`GuestOutlivesHost`); if it succeeds, all are released
  (`TerminateReleases`).
- The flag that tells entering an `ioctl` from leaving it is right if and only if the thread was
  attached outside an `ioctl` (`FlagRightExactly`, `FromTracer`, `AttachedInsideMissesExit`).
- A relocation at the first address of a mapping is not found, all others are
  (`FindLoadableExactly`, `FirstWordNotFound`); a relocation against a weak symbol succeeds without
  writing anything (`RelocateHolds`, `WeakIsIgnored`).
- The shift from sectors to bytes is right if and only if the sector is below 2^55, which the access
  test guarantees (`OffsetExactly`, `OffsetWraps`, `InBoundsOffset`); a request is transferred completely if and only
  if all its buffers are backed (`TransfersAllExactly`, `ShortTransfer`).
- A buffer of a block request moves the right bytes if and only if it is straight, since only its base
  address is translated (`StraightExactly`, `CrossingReadsWrong`); a buffer inside one memory slot is
  (`InsideIsStraight`).
- A core dump that succeeds reads back as memory for exactly the slots before the first one that
  cannot be read, and for the others as what the file had there before (`ReadsBack`,
  `UnreadableSlot`).
- An injected call keeps the injector transparent if and only if it leaves the patched word alone
  (`SyscallKeepsExactly`).
- A start that fails after the guest was told that the device is ready leaves the word at `Ready`
  (`FailedStartStays`, `FailsAfterNotify`).
- Ranges that are not sorted can get lost in the index of memory slots (`LosesNothingExactly`,
  `UnsortedLoses`); sorted ones do not (`New`).
- The tables for mappings with gaps stay inside the memory slot if and only if there are no more table
  slots to fill than the estimate for the total length (`HousedExactly`, `SparseOverflows`).
- An accepted `map_memory` whose tables are written only in part leaves these tables in the guest, and
  what is needed to undo them is lost (`MapMemory`).
- The headers of a core file take the space reserved for them if and only if their number fits into
  16 bits (`MetadataExactly`, `MetadataWraps`); a dump that succeeds has fewer, since one transfer takes
  1024 slots at most (`WriteCoreFile`).
- The window test for device accesses rejects the last byte of the block range (`DeviceWindow`).

## Model

| member | source | states |
|---|---|---|
| `PageTableEntry.EncodeDecode` | src/page_table.rs:89-125 | splitting any 64-bit entry into frame and flags and packing it again gives the word back, so restored tables have their old bytes |
| `PageTableEntry.DecodeEncode` | src/page_table.rs:89-125 | the split form survives packing, for all frames and flags in range |
| `PageTableEntry.SetAddrReadsBack` | src/page_table.rs:102-125 | on raw 64-bit words, `addr` and `flags` read back what `set_addr` wrote if and only if the address stays inside the address bits and the flags outside |
| `PageWalk.WalkStops` | src/page_table.rs:197-204 | a leaf or a missing entry on an upper level decides the walk of every page below it |
| `PageWalk.HangEffect` | src/page_table.rs:274-291 | hanging an empty table behind an absent entry changes the walk of its own slot only, on all levels, if the edited table is reached by one path |
| `PageWalk.LeafEdit` | src/page_table.rs:442-455 | installing a leaf changes the translation of its own page only |
| `PageWalk.HangKeepsUnshared` | src/page_table.rs:274-291 | new tables keep the tables on the edited paths unshared |
| `PageVisit.IndexByDivision` | src/page_table.rs:197-204 | the four table indices are the base-512 digits of the page number |
| `PageVisit.FirstIsStart` | src/page_table.rs:405-442 | the four nested loops start at the requested page |
| `PageVisit.NextSlot` | src/page_table.rs:350-356 | where the loops go on after finishing a table, given that start indices look one level up only |
| `PageVisit.ContiguousExactly` | src/page_table.rs:350-356 | the loops visit consecutive pages if and only if the range has no bad crossing |
| `PageVisit.CrossingSkipsPages` | src/page_table.rs:405-458 | a two-page range across a 1 GiB boundary for which 511 pages are skipped |
| `PageVisit.KernelRangeIsContiguous` | src/kernel.rs:15 | every range inside the kernel image range is visited contiguously |
| `PageTableEditor.Editor.ReadPageTable` | src/page_table.rs:293-319 | a table enters the cache with its present content, which is saved once; the view of memory does not change |
| `PageTableEditor.Editor.GetPageTable` | src/page_table.rs:321-348 | delivers the cached table behind an entry, allocating it if absent, keeps every other walk, and fails exactly on huge or unbacked entries with the matching error |
| `PageTableEditor.Editor.InstallPage` | src/page_table.rs:442-455 | installs the next page of the range at its frame with its flags, or reports that the page is already mapped |
| `PageTableEditor.Editor.MapTable` | src/page_table.rs:405-458 | one loop of the nest, for every level: the pages visited are those of the visiting order, each mapped to its frame, and no table is borrowed twice |
| `PageTableEditor.Editor.MapSlot` | src/page_table.rs:405-458 | one round of such a loop: a page installed or a lower table worked off, with the page that is visited next |
| `PageTableEditor.Editor.MapSingle` | src/page_table.rs:393-460 | succeeds if and only if every page it visits is free, then maps exactly these; otherwise the error belongs to the first obstacle |
| `PageTableEditor.HangKeepsInv` | src/page_table.rs:274-291 | allocating a table keeps the editor's invariant: cache, saved tables, unshared paths, and one new table per new slot |
| `PageTableEditor.LeafKeepsInv` | src/page_table.rs:442-455 | installing a page keeps the editor's invariant |
| `PageTableEditor.NotBorrowed` | src/page_table.rs:405-440 | a table on a lower level is never one that an outer loop holds, so no `RefCell` is borrowed twice |
| `PageMapping.CheckMappings` | src/page_table.rs:488-502 | accepts exactly page-aligned, physically consecutive mappings and names the first bad one |
| `PageMapping.CommitPageTables` | src/page_table.rs:358-379 | writes the tables in order; a short transfer leaves exactly a prefix written and is reported |
| `PageMapping.CommitIsOverlay` | src/page_table.rs:358-379 | committing the cache gives the memory that the editor has been looking at |
| `PageMapping.MapMemory` | src/page_table.rs:466-531 | accepts exactly aligned, consecutive, pairwise disjoint mappings of absent pages; a rejection leaves guest memory untouched and explains itself; an accepted call succeeds if and only if the kernel writes all cached tables, and otherwise leaves exactly the tables that were written; success maps every visited page to its frame with its flags, leaves every other translation alone, can be undone, and puts new tables behind the mapped memory |
| `PageMapping.MappedIsExact` | src/page_table.rs:503-516 | the pages collected job by job are the visited pages of all mappings with their leaf entries, everything else as before |
| `PageMapping.Drop` | src/page_table.rs:233-243 | writes the saved tables back |
| `PageMapping.MapThenDrop` | src/page_table.rs:222-243 | mapping and dropping gives every table of the guest its old content and every page its old translation |
| `PageMapping.DeliversExactly` | src/page_table.rs:466-531 | after a successful call a mapping is in place as asked for if and only if its range has no bad crossing |
| `PageTableSize.EstimatePageTableSize` | src/page_table.rs:206-220 | the loop computes the densely packed tables of all four levels, in bytes |
| `PageTableSize.NewTablesAtMost` | src/page_table.rs:274-291 | an edit of pages inside a range allocates at most the tables on the paths of that range |
| `PageTableSize.NewTablesExactly` | src/page_table.rs:274-291 | and exactly these if the root table had no entry for any of the pages |
| `PageTableSize.NewTablesCount` | src/page_table.rs:274-291 | for any set of pages, the tables allocated are as many as there are table slots on their paths without a table |
| `PageTableSize.EstimateSufficesExactly` | src/page_table.rs:206-220 | the estimate covers the needed tables if and only if the range straddles a boundary on at most one level |
| `PageTableSize.EstimateCanFail` | src/page_table.rs:206-220 | two pages across a 512 GiB boundary need six tables, the estimate has four |
| `PageTableSize.EstimateSufficesInGib` | src/page_table.rs:206-220 | the estimate covers every range inside one 1 GiB region |
| `PhysMemAllocator.ServeKeepsSound` | src/kvm/allocator.rs:126-156 | a request, served, refused or rolled back, keeps all regions page aligned, below the limit, behind the last byte of the last memory slot, and disjoint |
| `PhysMemAllocator.ServeAllSound` | src/kvm/allocator.rs:126-187 | so does every sequence of page-multiple requests |
| `PhysMemAllocator.PlacedWellFormed` | src/kvm/allocator.rs:157-179 | the mapping list of `virt_alloc` passes the checks of `map_memory` if and only if all allocations are page aligned |
| `PhysMemAllocator.TablesFit` | src/kvm/allocator.rs:157-179 | for consecutive allocations inside one 1 GiB region, the new tables fit into the memory slot behind the mapped memory |
| `PhysMemAllocator.HousedExactly` | src/kvm/allocator.rs:157-179 | for any page-aligned allocations, gaps or not, the new tables stay inside the memory slot if and only if the table slots to fill are no more than the estimate for the total length |
| `PhysMemAllocator.SparseOverflows` | src/page_table.rs:206-220 | three pages in three 2 MiB regions need five tables, the memory slot has room for four |
| `PhysMemAllocator.FramesFit` | src/kvm/allocator.rs:157-179 | the frames of non-empty allocations below 2^52 fit into the address field of an entry, page by page |
| `PhysMemAllocator.PlaceAll` | src/kvm/allocator.rs:161-175 | the loop places allocation after allocation, each behind the ones before it |
| `PhysMemAllocator.Allocator.NextAddress` | src/kvm/allocator.rs:126-145 | the next lower address, or one of three errors that leave the allocator alone |
| `PhysMemAllocator.Allocator.PhysAlloc` | src/kvm/allocator.rs:147-156 | a refused memory slot rolls the allocator back; otherwise the new region is the lowest one |
| `PhysMemAllocator.Allocator.AllocMmioRange` | src/kvm/allocator.rs:181-187 | device ranges come from the same allocator, adjacent to the previous allocation |
| `PhysMemAllocator.Allocator.DeviceWindow` | src/devices/mod.rs:117-128 | the console and block ranges are adjacent, so the window test accepts exactly their addresses, except the last byte of the block range |
| `PhysMemAllocator.Allocator.VirtAllocate` | src/kvm/allocator.rs:157-179 | takes one memory slot and maps it, with all guarantees of `map_memory`; the new tables lie behind the mapped memory, and inside the slot if and only if the table slots to fill are no more than the estimate, which holds for consecutive allocations inside one 1 GiB region; below the end of the physical address space every new entry keeps its frame when it is packed |
| `PageTableIterator.Iterator.constructor` | src/page_table.rs:180-195 | a fresh iterator is going to yield the leaves of its table from the start index on |
| `PageTableIterator.Iterator.Next` | src/page_table.rs:554-609 | yields the head of the list and leaves its tail; nothing is yielded if and only if the list is empty |
| `PageTableIterator.Iterator.FindFrom` | src/page_table.rs:563-607 | the loop over the entries finds the first leaf, here or in a lower table, and where to go on |
| `PageTableIterator.Iterator.Descend` | src/page_table.rs:586-602 | the bounds of the range are passed down exactly to the first and the last entry |
| `PageTableLeaves.EntryVirtCanonical` | src/page_table.rs:568-574 | the virtual address that the iterator builds up is the sign-extended one of the walk |
| `PageTableLeaves.BoundsAdmit` | src/page_table.rs:563-567 | the loop bounds on every level admit exactly the entries that meet the range |
| `PageTableLeaves.LeavesList` | src/page_table.rs:554-609 | the entries of a table from one on yield exactly the leaves of the walk there |
| `PageTableLeaves.IteratorLists` | src/page_table.rs:551-609 | over backed tables, the iterator yields exactly the leaves whose extent meets the range, each once, in ascending order, at their sign-extended addresses |
| `PhysHostMap.PhysHostMap.New` | src/guest_mem.rs:81-103 | merges ranges in any order; accepted ranges are sorted and disjoint, map nothing that was not given, and lose nothing under exactly the condition of `LosesNothingExactly`; on ranges sorted by start it panics if and only if two ranges overlap with different offsets, and otherwise loses nothing |
| `PhysHostMap.UnsortedLoses` | src/guest_mem.rs:87-101 | two ranges in the wrong order, of which the lower one gets lost |
| `PhysHostMap.LosesNothingExactly` | src/guest_mem.rs:87-101 | an accepted list, sorted or not, loses nothing if and only if no range is merged into one that begins behind one of its addresses, unless that address was mapped already |
| `PhysHostMap.PhysHostMap.GetRange` | src/guest_mem.rs:109-122 | bisection finds the range that contains an address, if there is one |
| `PhysHostMap.PhysHostMap.Get` | src/guest_mem.rs:124-126 | the offset is that of a linear scan of the merged ranges |
| `PhysHostMap.PhysHostMap.LastRange` | src/guest_mem.rs:105-107 | the last range ends behind all others |
| `PhysHostMap.MergedScan` | src/guest_mem.rs:80-127 | merging and bisection find for every address what a linear scan of the given ranges finds |
| `PhysHostMap.HostAddrInverts` | src/page_math.rs:25-31 | in 64-bit arithmetic, `host_addr` inverts `compute_host_offset` across a whole slot, for every order and distance of its two addresses |
| `PhysHostMap.TranslatesSlots` | src/guest_mem.rs:138-144 | every address of every memory slot is found and translated to its place in the slot |
| `Handshake.StepKeeps` | src/devices/threads.rs:59-125 | every step of every party keeps the invariant of the handshake, in both device modes |
| `Handshake.RunInv` | src/devices/threads.rs:59-125 | every reachable state satisfies it |
| `Handshake.DeviceOrder` | src/devices/threads.rs:59-99 | in every interleaving the device word only moves up: initializing, then ready or failed, then terminating |
| `Handshake.AnnouncedExactly` | src/devices/threads.rs:59-70 | the word passes through ready or failed if and only if the write of `notify` reached the guest |
| `Handshake.LostWriteSkipsReady` | src/devices/threads.rs:59-70 | a run in which that write fails and the word goes from initializing to terminating |
| `Handshake.TerminatingDriver` | src/stage1/src/lib.rs:565-572 | a terminating driver has seen the device terminate and has no device registered |
| `Handshake.WatcherNeverSeesTerminating` | src/stage1.rs:126-157 | while the watching thread runs, the driver is not terminating, because `attach` joins it before `terminate` |
| `Handshake.TerminateReleases` | src/devices/threads.rs:72-99 | after a successful `terminate` all devices of the guest are released, for good |
| `Handshake.RejectsOnlyUnready` | src/devices/threads.rs:85-97 | once the watching thread has seen the driver ready, `terminate` never rejects its state |
| `Handshake.TerminateIsInitialized` | src/attach.rs:87-107 | `terminate` never finds an uninitialized notifier |
| `Handshake.FailedStartStays` | src/devices/threads.rs:431-458 | a start that fails after `notify` leaves the device word as announced for good, so a driver that is ready stays ready |
| `Handshake.FailsAfterNotify` | src/devices/threads.rs:431-458 | such a run: the guest is told that the device is ready, and then a thread cannot be spawned |
| `Handshake.GuestAnswers` | src/stage1/src/lib.rs:565-572 | a ready driver reaches the terminating state by a bounded number of its own steps once the device terminates |
| `Handshake.GuestOutlivesHost` | src/attach.rs:87-134 | a run in which `terminate` fails and the guest registers a device after the host is gone |
| `Injector.StepKeeps` | src/tracer/inject_syscall.rs:27-88 | without a failed `ptrace` call, every operation keeps the injector transparent: the word is patched exactly while it is attached, and saved registers and text are those of the hypervisor without the patch; injected calls may change memory, except the patched word |
| `Injector.ExecKeeps` | src/kvm/hypervisor/hypervisor.rs:134-229 | so does every run of operations by any threads |
| `Injector.FailsExactly` | src/tracer/inject_syscall.rs:183-215 | which operations have a failing `ptrace` call: those of a thread that does not own the tracer, those that need it while the wrapper has it, and those that cannot read the instruction |
| `Injector.OnlyOwnerActs` | src/tracer/inject_syscall.rs:166-181 | while one thread owns the tracer, operations of others change nothing |
| `Injector.SyscallWorks` | src/tracer/inject_syscall.rs:348-362 | an attached injector can always inject, and only for its owner |
| `Injector.SyscallKeepsExactly` | src/tracer/inject_syscall.rs:348-362 | whatever an injected call does to memory, the injector stays transparent if and only if the patched word is left mapped and intact |
| `Injector.ReleaseRestores` | src/tracer/inject_syscall.rs:47-65 | release by the owner puts back the registers and the word saved by the matching `init` and leaves every other byte as the injected calls left it |
| `Injector.LeavesNoTrace` | src/tracer/inject_syscall.rs:47-65 | whatever sequence of stops, calls, hand-overs and resumes, whenever the injector is not attached the hypervisor has its old registers, its old instruction, and every byte that no injected call changed |
| `Injector.WrappedKeepsOwner` | src/kvm/hypervisor/hypervisor.rs:173-229 | `kvmrun_wrapped` ends with the owner and the attachedness it began with, whatever happens meanwhile, and only in the thread that began it |
| `Injector.Hypervisor.Init` | src/tracer/inject_syscall.rs:27-45 | saves registers and instruction, then patches; a failure changes nothing |
| `Injector.Hypervisor.Deinit` | src/tracer/inject_syscall.rs:47-65 | restores instruction and registers, with no effect for a thread that is not the tracer |
| `Injector.Hypervisor.Stop` | src/kvm/tracee.rs:71-79 | attaches and patches unless already attached |
| `Injector.Hypervisor.Resume` | src/kvm/hypervisor/hypervisor.rs:143-150 | dropping the injector restores and detaches |
| `Injector.Hypervisor.Disown` | src/tracer/inject_syscall.rs:204-215 | restores, detaches, and keeps the threads for the next owner |
| `Injector.Hypervisor.Adopt` | src/tracer/inject_syscall.rs:183-200 | attaches again from the current thread, with freshly saved state |
| `Injector.Hypervisor.InjectSyscall` | src/tracer/inject_syscall.rs:348-362 | runs one call from the saved registers, for the owner only; its result and its effect on memory are those of the kernel |
| `Injector.Hypervisor.EnterWrapped` | src/kvm/hypervisor/hypervisor.rs:177-202 | the injector becomes a wrapper with the same owner, with the hypervisor restored |
| `Injector.Hypervisor.LeaveWrapped` | src/kvm/hypervisor/hypervisor.rs:206-226 | the wrapper becomes an injector again if it was one, and is detached otherwise |
| `WrapSyscall.KvmRunWrapper.FromTracer` | src/tracer/wrap_syscall.rs:256-267 | the flags of a new wrapper agree with the kernel if and only if no thread is inside an `ioctl` |
| `WrapSyscall.KvmRunWrapper.StopOnSyscall` | src/tracer/wrap_syscall.rs:301-309 | resumes exactly the stopped threads and keeps all flags in agreement with the kernel |
| `WrapSyscall.KvmRunWrapper.WaitPid` | src/tracer/wrap_syscall.rs:321-341 | skips the reports about other processes and marks the reported thread as stopped |
| `WrapSyscall.KvmRunWrapper.ProcessStatus` | src/tracer/wrap_syscall.rs:343-355 | follows the kernel for stops, exits and other reports, and returns the device access the report stands for |
| `WrapSyscall.KvmRunWrapper.DropThread` | src/tracer/wrap_syscall.rs:357-374 | forgets one thread and keeps all others; the index still names the main thread |
| `WrapSyscall.KvmRunWrapper.Stopped` | src/tracer/wrap_syscall.rs:376-435 | an access is returned exactly for the successful exit from `KVM_RUN` of a known virtual CPU because of device memory, read from a stopped thread |
| `WrapSyscall.KvmRunWrapper.WaitForIoctl` | src/tracer/wrap_syscall.rs:312-319 | the same for one round, for the owning thread only |
| `WrapSyscall.KvmRunWrapper.AnswerRead` | src/tracer/wrap_syscall.rs:82-113 | while the thread is stopped, the answer replaces the data of the access and no other byte, and the access becomes a write; anything else is refused |
| `WrapSyscall.KvmRunWrapper.HandleMmioRw` | src/devices/mmio.rs:42-61 | a write is forwarded and the page left alone; a read is answered with what the devices return; fails exactly if the devices do |
| `WrapSyscall.KvmRunWrapper.HandleOne` | src/devices/threads.rs:243-263 | exactly the accesses inside the device window go to the devices, each while its thread is stopped; a failing device is reported with its access |
| `WrapSyscall.KvmRunWrapper.HandleMmioExits` | src/devices/threads.rs:228-264 | over any trace of reports, the accesses seen are those of the trace, in order; those inside the window, reads and writes, reach the devices in this order, and every read is answered with what the devices return after all accesses before it; a failing device ends the loop at its access |
| `WrapSyscall.KvmRunWrapper.PrepareDetach` | src/tracer/wrap_syscall.rs:157-183 | interrupts exactly the running threads |
| `WrapSyscall.KvmRunWrapper.IntoTracer` | src/tracer/wrap_syscall.rs:242-254 | hands over all threads, stopped, in order, with the index of the main thread |
| `WrapSyscall.NamesMainRemove` | src/tracer/wrap_syscall.rs:367-373 | removing any other thread moves the index with the main thread |
| `WrapSyscall.FlagRightExactly` | src/tracer/wrap_syscall.rs:143-154 | over any alternating trace, the flag means "inside an ioctl" if and only if it did at the start |
| `WrapSyscall.AttachedInsideMissesExit` | src/tracer/wrap_syscall.rs:143-154 | a thread attached inside `KVM_RUN` leaves the call with its flag set, so its exit is missed |
| `BlockDevice.OffsetExactly` | src/devices/virtio/block/inorder_handler.rs:140-144 | the shift loses no bits if and only if the sector is below 2^55 |
| `BlockDevice.OffsetWraps` | src/devices/virtio/block/inorder_handler.rs:140-144 | sector 2^55 shifts to offset zero, but no disk is large enough for it to pass the access test |
| `BlockDevice.InBoundsOffset` | src/devices/virtio/block/inorder_handler.rs:106-114 | after the access test the shift is exact and the request lies inside the mapped disk |
| `BlockDevice.RefinesArray` | src/devices/virtio/block/inorder_handler.rs:139-215 | a request with straight buffers has on guest physical memory and on the disk the effect it has on a plain array of sectors, with all refusals, and leaves the bytes behind the last sector alone |
| `BlockDevice.MovesBytes` | src/devices/virtio/block/inorder_handler.rs:139-215 | byte by byte: after a read every guest address of a straight buffer holds its byte of the disk, and after a write the disk holds what every guest address held |
| `BlockDevice.TransfersAllExactly` | src/devices/virtio/block/inorder_handler.rs:164-200 | an accepted request reports a complete transfer if and only if all its buffers are backed |
| `BlockDevice.ShortTransfer` | src/devices/virtio/block/inorder_handler.rs:164-200 | a read whose second buffer is not backed reports success with half of its bytes |
| `BlockDevice.InOrder` | src/devices/virtio/block/inorder_handler.rs:216-290 | chains are returned once each in the order of arrival, all of them unless a status byte cannot be written (section 2.6.9 of Virtio 1.1) |
| `BlockDevice.QueueRefines` | src/devices/virtio/block/inorder_handler.rs:270-290 | any sequence of chains with straight buffers has the effect it has on an array of sectors and on guest physical memory, status bytes and used ring included |
| `BlockDevice.InOrderQueueHandler.PrepareIovs` | src/devices/virtio/block/inorder_handler.rs:117-137 | translates every buffer, or fails if and only if one has no translation |
| `BlockDevice.InOrderQueueHandler.ExecuteRequest` | src/devices/virtio/block/inorder_handler.rs:139-215 | the effect of a request on disk and memory, with all refusals; a flush fails at an offset that is not page aligned |
| `BlockDevice.InOrderQueueHandler.ProcessChain` | src/devices/virtio/block/inorder_handler.rs:216-268 | status byte and used length for every outcome; unparsable chains are used with length zero |
| `BlockDevice.InOrderQueueHandler.ProcessQueue` | src/devices/virtio/block/inorder_handler.rs:270-290 | the batches that arrive while notifications are off are served as one sequence, up to the first memory error |
| `GuestMemory.StraightExactly` | src/devices/virtio/block/inorder_handler.rs:117-137 | translating only the base of each buffer moves the right bytes, whatever memory holds, if and only if every buffer is straight: the translation of base plus k is the translation of base, plus k |
| `GuestMemory.CrossingReadsWrong` | src/devices/virtio/block/inorder_handler.rs:120-123 | a buffer across two slots that adjoin for the guest and not in the hypervisor is read from wrong bytes |
| `GuestMemory.InsideIsStraight` | src/devices/virtio/block/inorder_handler.rs:117-137 | a buffer inside one memory slot is straight |
| `GuestMemory.GatherView` | src/devices/virtio/block/inorder_handler.rs:187-200 | what the kernel collects from straight buffers is what the guest has in them |
| `GuestMemory.ScatterView` | src/devices/virtio/block/inorder_handler.rs:169-184 | what the kernel distributes to straight buffers is what the guest finds in them, and nothing else of guest memory changes |
| `ProcessVm.GatherScatter` | src/devices/virtio/block/inorder_handler.rs:169-200 | what is scattered into disjoint buffers is what the buffers hold, one after the other |
| `ProcessVm.ScatterElsewhere` | src/devices/virtio/block/inorder_handler.rs:169-184 | a transfer changes no byte outside its buffers |
| `ProcessVm.ScatterAt` | src/loader.rs:132-156 | a list of local buffers arrives in the remote buffers one by one |
| `Layout.SortOrdered` | src/loader.rs:338-339 | the allocations are in the order of their addresses |
| `Layout.DisjointApart` | src/loader.rs:391-394 | after a successful `virt_alloc` in the kernel image range, every request but the last takes some pages and ends before the next begins |
| `Layout.AllocsStacked` | src/loader.rs:313-398 | so the segments have pages of their own and the strings lie behind all of them |
| `Layout.HeadersApart` | src/loader.rs:400-430 | and no two segments begin in the same page |
| `Loader.FindLoadableExactly` | src/loader.rs:57-61 | the loadable of an address is found if and only if the address is not the first one of its mapping |
| `Loader.FirstWordNotFound` | src/guest_mem.rs:47-51 | a relocation of the first word of a page-aligned segment fails |
| `Loader.LoadAgrees` | src/loader.rs:313-430 | after a successful `virt_alloc`, loading finds the mapping and the offset that `allocate` made for the segment, so the content begins at the address of the ELF file |
| `Loader.LoadedAtHome` | src/loader.rs:400-430 | this holds for every segment of a file; the mappings do not overlap, for the guest or in the hypervisor, and no content overruns its mapping |
| `Loader.RelocateHolds` | src/loader.rs:432-507 | a successful relocation sets the eight bytes at its address to base or symbol plus addend (section 4.4.1 of the System V AMD64 psABI) and no other byte; against a weak symbol it sets nothing |
| `Loader.WeakIsIgnored` | src/loader.rs:472-478 | a relocation against a weak symbol changes nothing and succeeds |
| `Loader.RelocateAllHolds` | src/loader.rs:432-507 | after all relocations every one that is not overwritten later has its value in place |
| `Loader.RelocateAllSpares` | src/loader.rs:432-507 | bytes that no relocation touches are those of the file |
| `Loader.RelocateAllValid` | src/loader.rs:432-507 | relocations move no loadable and change no length |
| `Loader.UploadHolds` | src/loader.rs:132-156 | after the upload every byte is at the translation of its virtual address |
| `Loader.RelocationArrives` | src/loader.rs:432-507 | after relocation and upload, the eight bytes at the translated address of a relocation, read as a little-endian number, are the required value |
| `Loader.Loader.Allocate` | src/loader.rs:313-398 | the segments, sorted, and the strings are placed in one memory slot and mapped, without overlaps in the kernel image range; the new tables lie behind them, and inside the slot under exactly the condition of `HousedExactly`; errors for no segment, for leaving that range, and of the allocator, with guest memory unchanged except for a partial commit |
| `Loader.Loader.RelocateEntry` | src/loader.rs:432-507 | one relocation in place, with every refusal leaving the buffers alone |
| `Loader.Loader.UploadBinary` | src/loader.rs:132-156 | one transfer of all content; a short one is an error |
| `LoadBinary.WalkFinds` | src/loader.rs:391-394 | the page table walk of every address of a mapping ends at the frame that the mapping has for it |
| `LoadBinary.HardwareAgrees` | src/loader.rs:132-156 | what the hardware of the guest reads through its page tables is what the loader has put at the translated addresses |
| `LoadBinary.RelocationReached` | src/loader.rs:313-507 | end to end: after allocation, loading, relocation and upload, the guest reads at the address of a relocation the value that it requires |
| `LoadBinary.UploadConfined` | src/loader.rs:132-156 | the upload writes into the mapped part of the memory slot only |
| `LoadBinary.LoadWhole` | src/loader.rs:235-262 | the steps one after the other; if all succeed, every relocation that has a value and is not overwritten later is read by the guest as that value, and no byte of a new table was touched by the upload |
| `CoreFile.PhdrReadsBack` | src/coredump.rs:126-150 | a program header reads back as written |
| `CoreFile.MetadataExactly` | src/coredump.rs:298-302 | the headers take the reserved space if and only if their number fits into 16 bits |
| `CoreFile.MetadataWraps` | src/coredump.rs:298-302 | with 65535 slots the header count wraps to zero and the notes are declared right behind the ELF header |
| `CoreFile.SegmentsTile` | src/coredump.rs:304-319 | the notes begin right behind the headers if and only if the number of headers fits into 16 bits, and end before the memory; memory segments begin at page boundaries and follow each other without gap or overlap to the end of the file |
| `CoreFile.NotesFill` | src/coredump.rs:286-290 | the notes take exactly the declared size, for any number of virtual CPUs |
| `CoreFile.NotesReadBack` | src/coredump.rs:210-284 | a reader of notes finds the process note and three notes per virtual CPU, in order, with their payloads |
| `CoreFile.ReadsBack` | src/coredump.rs:292-342 | reading any physical address of a slot through the headers of the file gives the byte of the hypervisor's memory if and only if the slot and all slots before it could be read, and otherwise the byte that the file had there |
| `CoreFile.UnreadableSlot` | src/coredump.rs:98-102 | two slots of which the second cannot be read: the call succeeds, and the dump has old content in its place |
| `CoreFile.CoreWriter.WriteNote` | src/coredump.rs:152-171 | header, name and payload of a note |
| `CoreFile.CoreWriter.WriteNotes` | src/coredump.rs:210-284 | all notes, one after the other |
| `CoreFile.CoreWriter.DumpMappings` | src/coredump.rs:63-103 | copies the memory into the end of the file; fails exactly if nothing can be copied or there are more slots than one transfer takes |
| `CoreFile.CoreWriter.PlanSegments` | src/coredump.rs:298-319 | the headers and the size of the file |
| `CoreFile.CoreWriter.WriteCoreFile` | src/coredump.rs:292-342 | every call leaves headers and notes one after the other; a successful one, which has at most 1024 slots, leaves the notes where their header says, and as much memory as could be read; behind it the old content of the file, or zeros where the file was shorter |
| `KernelFile.PutMeans` | src/stage1/src/lib.rs:237-267 | written bytes are in the file at their position and nothing else has changed |
| `KernelFile.KFile.WriteAll` | src/stage1/src/lib.rs:237-267 | for any sequence of partial writes, interruptions and errors, a report of n bytes means exactly the first n bytes are in the file, with the old and the new kernel interface alike |
| `KernelFile.KFile.ReadAll` | src/stage1/src/lib.rs:207-235 | the same for reads: n bytes of the file are in the buffer and the rest of it is untouched |

## Left out

- Real `ptrace`, `ioctl`, `process_vm_readv`/`writev`, `mmap`, sockets, eventfds and BPF: abstract steps whose outcome is a parameter.
- `map_memory`: the tables on the edited paths are assumed to be reached by one path each, and all tables to lie below the new memory slot; a length of zero wraps as in a release build.
- PageTableEditor.Editor.MapTable: the four nested loops are one method indexed by level, since they differ in their level only.
- PageMapping.CommitPageTables: a transfer stops between two tables, not inside one.
- PageTableIterator.Iterator.Next: the iterator is not used again after it has returned nothing, and a range whose start lies behind its end, which makes the source panic, yields nothing here.
- PageTableLeaves.IteratorLists: tables in the range are backed; an unbacked table ends the iteration of the table that points to it.
- Handshake: the thread that serves the devices may call `notify` any number of times, and stands for `start` itself with `ioregionfd`; real time, fairness and condition variable wake-ups are not modelled.
- Injector: an injected call leaves the patched word alone (`SyscallKeepsExactly` says what else it may do); the registers and memory of the main thread stand for all threads, and every seize succeeds unless another thread traces already.
- WrapSyscall.KvmRunWrapper.FromTracer: signals that stop a thread are reported as other stops; their loss on resume is not modelled.
- BlockDevice.RefinesArray: the memory slots of the guest are mapped in the hypervisor and disjoint in both.
- BlockDevice.InOrderQueueHandler.ExecuteRequest: requests other than read, write and flush go to a library and count as unsupported here; the limit of 1024 buffers per transfer is not modelled, since a queue has 256 descriptors.
- Loader.Loader.UploadBinary: the limit of 1024 buffers per transfer is not modelled; ELF files have few segments.
- BlockDevice.InOrderQueueHandler.ProcessQueue: the descriptor ring itself, its notifications and the parsing of requests are parameters.
- LoadBinary.LoadWhole: ELF parsing and the writing of the stage 1 arguments and their strings are not modelled; the base address is page aligned and in the kernel image range, where the search for a gap begins.
- Loader.RelocationArrives: later relocations do not overlap the one in question.
- CoreFile.CoreWriter.WriteCoreFile: the payloads of notes are opaque bytes of fixed sizes, and protection flags are opaque numbers.
- KernelFile.KFile.WriteAll: a call that never returns is the end of the list of outcomes.
- `find_kernel_sections` and the scan for kernel symbols: heuristics over memory of unknown layout.
- stage 2, the command line, logging, console escaping, `ioregionfd` packing and interrupt acknowledgement: plumbing or easy to see.

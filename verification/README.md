# Proofs about the seL4 Linux personality

A Dafny model of the four parts of the repository that hold most of its state and arithmetic,
with proofs of what they promise. `dafny verify dfyconfig.toml` checks everything.

1. **The fault and fork loop** of the root task (`fault_loop.dfy`). `FaultLoop.Next` is one turn
   of the loop as a function on states; `FaultLoop.RootTask` is the loop itself, with the source's
   mutable variables and the kernel's TCB operations, proved to take exactly those turns. On top of
   it: the invariants of every run, fork as seen by the parent, the mmap cursor.
2. **Task memory and program loading.** `paged_memory.dfy`, `address_space.dfy` and
   `task_memory.dfy` hold the paged store of a task, proved against a flat partial byte map;
   `syscall_patch.dfy` the patching loader; `runner_plan.dfy`, `runner.dfy`, `slots.dfy` and
   `frame_loader.dfy` the two frame-based loaders, the slot allocator and their agreement;
   `start_stack.dfy` the start-up stack; `flat_image.dfy` the two host-side image builders.
3. **The filesystem service.** `ipc.dfy` is the message buffer and its byte packing, `dirents.dfy`
   the directory records, `fs_model.dfy` client, server and store as one state machine with its
   coherence over all runs, `fs_reads.dfy` sequential reading. `fs_service.dfy` and `fs_client.dfy`
   are the two sides as classes that talk through their message registers; each client call is
   proved to be one step of the state machine.
4. **The block device cursor and the signal words** (`block_disk.dfy`, `signals.dfy`), proved
   against a flat device and against sets of signal numbers.

`words.dfy`, `bits.dfy`, `little_endian.dfy` and `elf.dfy` are shared: 64-bit words with explicit
wrap-around (the repository builds in release mode, so `usize` arithmetic wraps), bitwise operators
on naturals, little-endian bytes, program headers.

Where the code does not keep what its neighbours expect, the exact condition is proved, and a
concrete case where it fails is given:

- patching a `syscall` for the child resumes the parent (`RunnableIsActive`), and a fork inside a
  child overwrites the one snapshot (`ParentIsRestoredIff`, `NestedForkLosesTheParent`);
- the fault loop hands out overlapping mmap regions once they total more than 2^64 bytes
  (`ParentRegionsDisjointIffTheyFit`), and `find_free_area` can answer with a mapped page near the
  top of the address space (`FindFreeAreaIsFree`) or below the address asked for
  (`FindFreeAreaGoesLower`);
- `brk` into the topmost page maps nothing (`BrkKeepsHeapMapped`), and the 2 MiB region walk of the
  runner loses regions in the same way (`PagesLieInWalkedRegions`); `munmap` up to there removes nothing
  (`MunmapUnmapsTheRange`), and a segment that ends there gets no page at its end
  (`RunnerLoadsEverySegment`);
- a trap word does not read back across a page or under a later patch (`TrapReadsBack`);
- slots repeat once allocations pass the reversed range (`FreshUntilReversedRangeIsUsed`);
- `loader.rs` counts pages it never visits when a segment's rounded end wraps
  (`CountedIsVisited`), and zeroes the first page of an unaligned segment (`UnalignedFirstPage`,
  `LoadersAgree`);
- the host tools build different images from segments that are not in order
  (`BuildersAgreeIffInOrder`);
- a directory listing stops at a record longer than the buffer, which looks like its end
  (`PagingCompletes`), and misses an entry created in front of its offset
  (`ListingAcrossCreate`); the client's `getdents64` buffer holds the directory's new offset in
  front of the records (`ListingArrivesShifted`, `ListingIntactIffEmpty`);
- the client's `stat` takes the fields from other registers than the server packs them into
  (`StatIsMisread`), and its `write` packs the payload over its own count (`WriteArrivesIff`);
- `lseek` wraps a negative target instead of refusing it (`SeekLandsOnTarget`), and creating or
  truncating a file with a full store fails after emptying it (`FailedOpenChangesDisk`);
- a read that starts at the end of the ramdisk succeeds without filling its block (`ReadIsSlice`);
- `tkill` with signal 0 posts signal 64, where `kill` only tests for existence
  (`TkillAgreesWithKill`).

The initial states satisfy the invariants that the run theorems start from
(`FaultLoop.InitialIsHealthy`, `AddressSpace.EmptySpaceIsSound`, `FsModel.FreshIsCoherent`).

## Model

| member | source | states |
|---|---|---|
| FaultLoop.RunKeepsInvariants | root-task/src/main.rs:946-1723 | Over every run the three records of a running child (`is_child`, the snapshot, the active slot) agree, so both `unwrap`s are safe, and at most one of the two TCBs is runnable at the loop head |
| FaultLoop.Next | root-task/src/main.rs:967-1723 | One turn, on any fault that can arrive, keeps those two invariants |
| FaultLoop.CallsAreAnswered | root-task/src/main.rs:1101-1680 | What every answered call returns, by its number: mmap the old cursor, brk the break it leaves, fork -38 when no child is ready, execve 0 in the parent, wait4 42 in the parent and -10 in the child, arch_prctl 0 with the TLS base set, any other its own result; the other registers but RIP, both threads and the rest of the loop state stay |
| FaultLoop.LoopEnds | root-task/src/main.rs:974-1723 | A turn ends the loop if and only if it is the 100001st, a CPU exception, a page fault in the lowest page or one that cannot be mapped, or the exit of the parent |
| FaultLoop.StoppedThreads | root-task/src/main.rs:974-1717 | What the ended loop leaves: past its limit everything as the fault found it, otherwise the parent suspended, while a child whose page cannot be mapped can still run |
| FaultLoop.FaultIsPassedOver | root-task/src/main.rs:981-1722 | Every other fault that is no system call restarts the thread that faulted as it was; a patch restarts the parent, whoever faulted |
| FaultLoop.HealthyUnlessPatchingTheChild | root-task/src/main.rs:1076-1093 | A turn keeps "the active thread is the one that can run" if and only if it is not a syscall patch taken while the child is active |
| FaultLoop.RunnableIsActive | root-task/src/main.rs:967-1722 | The runnable TCB is the active one at every loop head of a run if and only if no turn of the run patches while the child is active |
| FaultLoop.ForkPutsParentToSleep | root-task/src/main.rs:1214-1243 | Fork snapshots the parent's registers and cursors, leaves it blocked, and starts the child with the same registers except RAX = 0 and RIP + 2 |
| FaultLoop.ChildTurn | root-task/src/main.rs:1101-1680 | A child turn keeps the sleeping parent and the snapshot exactly when the fault does not end the loop or the child, patch, or fork over a different snapshot; a fork puts its own snapshot in place |
| FaultLoop.ReturnRestoresParent | root-task/src/main.rs:1304-1317 | The child's exit or execve resumes the parent as after one instruction if and only if the snapshot held agrees with the parent's 18 written registers and its cursors |
| FaultLoop.ParentIsRestoredIff | root-task/src/main.rs:1214-1594 | After a fork and any number of child turns, nested forks included, the child's end resumes the parent with all twenty fork-time registers except RAX and RIP and with its cursors, if and only if the last snapshot taken restores those |
| FaultLoop.ForkIsTransparent | root-task/src/main.rs:1214-1594 | So it always does when the child does not fork in turn |
| FaultLoop.NestedForkLosesTheParent | root-task/src/main.rs:1230-1233 | With a fork inside the child the parent wakes up at the child's instruction pointer |
| FaultLoop.MmapHandsOutTheCursor | root-task/src/main.rs:1531-1536 | mmap returns the old cursor and moves it past the reservation |
| FaultLoop.GrantCoversRequest | root-task/src/main.rs:1532-1534 | The reservation is whole pages, at least one, and covers the request, with less than a page to spare, if and only if rounding up does not wrap; otherwise it is one page |
| FaultLoop.CursorTurn | root-task/src/main.rs:1531-1536 | Every turn keeps the cursors page-aligned and in order, the child's above the parent's |
| FaultLoop.ParentRegionsDisjoint | root-task/src/main.rs:1531-1536 | Over every run without wrap-around, forks and patches included, the regions handed to the parent are page-aligned and pairwise disjoint |
| FaultLoop.ParentRegionsAreChained | root-task/src/main.rs:1531-1536 | Over every run without a nested fork each region begins where the one before it ended, around the address space if need be, whatever children reserved in between |
| FaultLoop.ParentRegionsDisjointIffTheyFit | root-task/src/main.rs:1531-1536 | Over every such run the parent's regions are pairwise disjoint if and only if their lengths add up to at most 2^64 |
| FaultLoop.WrappedMmapOverlaps | root-task/src/main.rs:1534 | Two requests of more than 2^64 bytes in all get overlapping regions |
| FaultLoop.ParentBreakIsLastAskedFor | root-task/src/main.rs:1230-1547 | Over every run without a nested fork the parent's break is what its last brk call asked for, whatever its children did with theirs |
| FaultLoop.RootTask.constructor | root-task/src/main.rs:946-952 | The loop starts with the parent active, no child and no snapshot |
| FaultLoop.RootTask.Turn | root-task/src/main.rs:967-977 | One iteration of the loop, with the fault limit, is exactly one step of the transition function and keeps its invariants |
| FaultLoop.RootTask.HandleFault | root-task/src/main.rs:981-1722 | The match on the fault type, with the closing reply, performs the step's dispatch |
| FaultLoop.RootTask.Emulate | root-task/src/main.rs:1101-1680 | The system-call arm performs what the table decides for the active thread's registers |
| FaultLoop.RootTask.WriteBack | root-task/src/main.rs:1667-1679 | Writing 18 of 20 registers leaves the active thread with its result, RIP + 2 and unchanged TLS bases, and the reply restarts the faulter |
| FaultLoop.RootTask.StartChild | root-task/src/main.rs:1216-1243 | The fork arm performs the fork step |
| FaultLoop.RootTask.EndChild | root-task/src/main.rs:1304-1317 | The shared tail of exit and execve performs the hand-back step |
| FaultLoop.RootTask.Serve | root-task/src/main.rs:967-1723 | The loop over any stream of faults ends in the state of the run |
| PagedMemory.PutBytesAt | lcl/src/task/mod.rs:180-201 | A write of any length at any address changes exactly its own bytes, zero-fills the rest of pages it creates, and touches nothing else |
| PagedMemory.PutBytesPages | lcl/src/task/mod.rs:188-195 | The mapped pages after a write are the old ones and those it touches |
| PagedMemory.PutBytesInPage | lcl/src/task/mod.rs:188-192 | One slice assignment inside a page is the byte-by-byte write |
| PagedMemory.PutBytesSplit | lcl/src/task/mod.rs:197-198 | Writing chunk by chunk from the wrapped address is one write |
| PagedMemory.BlankPagesAt | lcl/src/task/mod.rs:117-123 | Mapping blank pages never changes a byte that is there; new pages read as zero |
| TaskMemory.Sel4Task.constructor | lcl/src/task/mem.rs:23-32 | A task starts with no pages and the break at the heap base |
| TaskMemory.Sel4Task.MapBlankPage | lcl/src/task/mod.rs:117-123 | Both maps gain the page if it is missing and stay aligned with equal domains |
| TaskMemory.Sel4Task.ReadBytes | lcl/src/task/mod.rs:155-167 | Reads the flat contents up to the end of the page and leaves the rest of the buffer alone; fails exactly on an unmapped page |
| TaskMemory.Sel4Task.ReadU32 | lcl/src/task/mod.rs:170-177 | The four little-endian bytes, zero past the end of the page |
| TaskMemory.Sel4Task.WriteBytes | lcl/src/task/mod.rs:180-201 | The page-by-page loop terminates and is the flat write; both maps keep equal, aligned domains |
| TaskMemory.Sel4Task.FindFreeArea | lcl/src/task/mod.rs:204-214 | The ascending scan returns the first fit |
| TaskMemory.Sel4Task.SysBrk | lcl/src/syscall/mm.rs:9-28 | Moves the break, also downwards, answers with it, and maps the pages of the growth |
| TaskMemory.Sel4Task.SysMmap | lcl/src/syscall/mm.rs:31-45 | Maps the rounded length at the found address, or at the page of the given one |
| TaskMemory.Sel4Task.SysMunmap | lcl/src/syscall/mm.rs:48-59 | Removes the pages of the rounded range from both maps |
| TaskMemory.Sel4Task.PatchSyscalls | lcl/src/task/mod.rs:272-282 | The scan writes a trap word over every `0f 05` in the file bytes, upwards |
| TaskMemory.Sel4Task.LoadSegment | lcl/src/task/mod.rs:259-282 | Maps, copies and patches one segment; fails exactly when its file part is not in the file |
| TaskMemory.Sel4Task.LoadElf | lcl/src/task/mod.rs:236-287 | Loads every loadable segment in header order and sets entry and end |
| TaskMemory.MaxEndIsHighest | lcl/src/task/mod.rs:236-257 | The end of the program that loading records is the highest end of any loadable segment |
| AddressSpace.BrkAt | lcl/src/syscall/mm.rs:9-28 | What every byte of the space holds after brk |
| AddressSpace.BrkKeepsHeapMapped | lcl/src/syscall/mm.rs:19-25 | One brk call keeps the whole heap mapped if and only if the new break is not in the topmost page or the bytes up to it are mapped already |
| AddressSpace.FirstFitMeans | lcl/src/task/mod.rs:204-214 | The scan answers with its starting point if that seems to fit below every key, and otherwise with the end of the first page it stops behind |
| AddressSpace.ScanStartsHigh | lcl/src/task/mod.rs:204-214 | The scan starts at the higher one of the address asked for and the end of the program; it answers with that if the range there seems to end below every page, and otherwise with the end of a page |
| AddressSpace.FirstFitIsFree | lcl/src/task/mod.rs:204-214 | The answer ends inside the address space and meets no key if and only if the starting point fits, or the keys leave a gap, or the scan goes round to free pages at the bottom |
| AddressSpace.FindFreeAreaIsFree | lcl/src/task/mod.rs:204-214 | The answer is a range inside the address space without a mapped byte if and only if the mapped pages leave such room, for every start and size |
| AddressSpace.RoomSuffices | lcl/src/task/mod.rs:204-214 | Room for the range above the start and above every mapped page is enough for that |
| AddressSpace.FindFreeAreaCanCollide | lcl/src/task/mod.rs:208 | When the sum wraps the answer can be a mapped page |
| AddressSpace.FindFreeAreaGoesLower | lcl/src/task/mod.rs:205-211 | The answer lies below the address asked for if and only if the scan leaves its starting point and first stops behind a page that low; with the topmost page unmapped, if and only if it could stop behind any page that low |
| AddressSpace.FindFreeAreaMayReturnLower | lcl/src/task/mod.rs:211 | A space in which it does |
| AddressSpace.MmapFindsFreeBytes | lcl/src/syscall/mm.rs:31-37 | An anonymous mmap hands out unmapped bytes inside the address space if and only if the mapped pages leave room for it |
| AddressSpace.MmapIsFresh | lcl/src/syscall/mm.rs:31-45 | Then it makes exactly those bytes read as zero and alters no other byte |
| AddressSpace.FirstMapping | lcl/src/syscall/mm.rs:33-37 | With nothing mapped behind the program an anonymous mapping starts at 0x10_0000 or at the end of the program, whichever is higher |
| AddressSpace.MmapAtAddress | lcl/src/syscall/mm.rs:31-45 | At an address of the caller's choosing mmap makes the unmapped bytes of that many pages, from the page of the address on, read as zero and keeps every mapped byte |
| AddressSpace.MmapsOfARunDisjoint | lcl/src/syscall/mm.rs:33-42 | Any two anonymous mappings share no byte, whatever brk, mmap and write calls lie between them |
| AddressSpace.MunmapAt | lcl/src/syscall/mm.rs:48-59 | munmap removes exactly the bytes of the rounded range |
| AddressSpace.MunmapUnmapsTheRange | lcl/src/syscall/mm.rs:49-53 | A range inside the address space is unmapped afterwards if and only if its end is not in the topmost page or nothing was mapped in it |
| AddressSpace.HeapStaysMapped | lcl/src/syscall/mm.rs:9-45 | Over any run of brk, mmap and writes every byte from the heap start to the break is mapped |
| AddressSpace.BreakIsLastAskedFor | lcl/src/syscall/mm.rs:9-28 | Over any run the break is what the last brk call that was no query asked for, and the end of the program never moves |
| AddressSpace.ContentsSurvive | lcl/src/syscall/mm.rs:9-45 | Over any run of brk and mmap calls a byte once mapped keeps its value |
| SyscallPatch.PatchFromAt | lcl/src/task/mod.rs:275-281 | What the upward patch pass leaves at every mapped byte: the nearest site at or below decides |
| SyscallPatch.LoadSegmentAt | lcl/src/task/mod.rs:259-282 | What loading one segment leaves at every byte: patched file bytes where it backs or patches, the old value elsewhere |
| SyscallPatch.QuietWhenApart | lcl/src/task/mod.rs:275-281 | A segment's patches reach at most two bytes past its file bytes |
| SyscallPatch.LoadAllAt | lcl/src/task/mod.rs:239-283 | After the whole program is loaded, a byte holds the patched byte of the last segment in header order that backs or patches it |
| SyscallPatch.UnpatchedBytesEqualFile | lcl/src/task/mod.rs:267-270 | Every file-backed byte equals the file, unless a `0f 05` starts at it or up to three bytes before it |
| SyscallPatch.BssIsZero | lcl/src/task/mod.rs:259-270 | After the whole program is loaded, memory past the file part of a segment reads as zero where no segment backs or patches it |
| SyscallPatch.UntouchedStaysAbsent | lcl/src/task/mod.rs:236-283 | Loading maps no page that holds nothing of any segment and none of the two bytes patches can reach |
| SyscallPatch.TrapReadsBack | lcl/src/exception.rs:57-59 | A loaded `0f 05` reads back as 0xdeadbeef if and only if its four bytes lie in one page and no other `0f 05` starts two or three bytes further on |
| RunnerPlan.PlanPages | lcl/src/task/runner.rs:213-274 | The plan lists each page that any segment touches exactly once, with the slice of the first segment that touches it |
| RunnerPlan.PlanSegment | lcl/src/task/runner.rs:253-272 | The walk over one segment extends the plan by its unrecorded pages |
| RunnerPlan.WalkedPagesMeet | lcl/src/task/runner.rs:236-252 | Below the topmost page, the pages walked are those that hold a byte of the segment, and the one an empty segment starts inside |
| Runner.RelocationKeepsDistances | lcl/src/task/runner.rs:34-48 | The lowest segment lands at the load base and distances between segments are kept |
| Runner.MapRegions | lcl/src/task/runner.rs:150-200 | Page tables go to exactly the 2 MiB regions of the segments and the one at the load base, none twice |
| Runner.WalkedRegionsMeet | lcl/src/task/runner.rs:176-179 | Away from the top, the regions walked are those that hold a byte of the segment, and the one an empty segment starts inside |
| Runner.PagesLieInWalkedRegions | lcl/src/task/runner.rs:176-179 | A segment's pages all lie in its walked regions if and only if rounding its end up to 2 MiB stays in the address space, or it has no pages |
| Runner.PlannedPagesHaveRegions | lcl/src/task/runner.rs:179-199 | Every planned page's region is in `mapped_pts` |
| Runner.Populate | lcl/src/task/runner.rs:326-366 | Page k of the plan is mapped on frame k with its slice, so on a frame of its own, and every other page stays on its frame; fails exactly if a page is mapped already |
| Runner.FrameIsImage | lcl/src/task/runner.rs:254-264 | The planned slice, copied at its in-page offset over zeros, is the reference image of the page |
| Runner.RunnerImage | lcl/src/task/runner.rs:326-366 | Every byte of every touched page is the reference image of the page's owner; untouched pages are as before |
| Runner.RunnerLoadsEverySegment | lcl/src/task/runner.rs:213-366 | For page-disjoint, in-file segments with filesz <= memsz every byte of a segment is its file byte, then zero, if and only if the segment is empty or ends below the topmost page, which itself is never touched |
| Runner.LoadProgram | lcl/src/task/runner.rs:85-366 | Loading succeeds if and only if there is a page to load, no planned page is mapped yet and the slots suffice; then the store is populated by the exact plan, page k on frame k, each batch fills consecutive slots, and within the reversed range page k sits on slot `next_slot` plus the page tables plus k |
| Runner.TakeSlots | lcl/src/task/runner.rs:101-107 | Slots suffice exactly when the reversed range and the old free list hold that many; within the range the frame slots count up from `next_slot` plus the page tables taken |
| Slots.ObjectAllocator.Alloc | lcl/src/utils/obj.rs:16-18 | Pops the last slot, or answers None on an empty list |
| Slots.ObjectAllocator.ExtendSlot | lcl/src/utils/obj.rs:20-22 | Pushes one slot |
| Slots.ObjectAllocator.AddAscending | root-task/src/main.rs:849-856 | The boot loop pushes the empty region in ascending order |
| Slots.ObjectAllocator.AddReversed | lcl/src/task/runner.rs:101-107 | The reversed loop pushes the range in descending order |
| Slots.ObjectAllocator.AllocMany | lcl/src/task/runner.rs:280-290 | Successive allocations return the top of the list in order, or fail when it runs dry |
| Slots.ReversePushAllocatesUpwards | lcl/src/task/runner.rs:101-107 | Whatever lay below, the k-th allocation after the reverse push is `next_slot + k` |
| Slots.FreshUntilReversedRangeIsUsed | lcl/src/task/runner.rs:85-107 | Over the boot-time push of the same region, allocations are distinct and miss the six reserved slots if and only if they fit the reversed range |
| Slots.RetypeInBatches | lcl/src/task/runner.rs:292-324 | Batches of at most 256 fill, frame by frame, the slots counted up from each batch's first; those are the given slots if and only if they are consecutive within each batch |
| FrameLoader.CountPages | lcl/src/task/loader.rs:118-123 | The counting pass adds up, in wrapping arithmetic, the difference of each segment's rounded ends |
| FrameLoader.CountIsVisited | lcl/src/task/loader.rs:120-123 | A segment is counted as often as the populate loop visits it if and only if its rounded end does not wrap below its start |
| FrameLoader.CountedIsVisited | lcl/src/task/loader.rs:206-215 | The passes agree over all segments if and only if no segment's rounded end wraps below its start |
| FrameLoader.TopSegmentIsCountedOnly | lcl/src/task/loader.rs:99-103 | A segment in the topmost page is counted once and never visited |
| FrameLoader.Drain | lcl/src/task/loader.rs:168-200 | The retype drain yields the smaller of what is asked for and what the untypeds hold |
| FrameLoader.UntypedIsUsedUp | lcl/src/task/loader.rs:175-190 | An untyped yields all its memory in frames of 4096 bytes, unless the kernel refuses before |
| FrameLoader.PopulateAll | lcl/src/task/loader.rs:206-269 | Populating succeeds if and only if there are frames enough and the pages are distinct and unmapped; then page k sits on frame k and every other page on the frame it had |
| FrameLoader.LoadElfToMemory | lcl/src/task/loader.rs:112-269 | Loading succeeds if and only if slots and untypeds cover the wrapped count, the count covers the pages, and the pages are distinct and unmapped; then it leaves the loader's store, page k on frame k |
| FrameLoader.SamePageSet | lcl/src/task/loader.rs:99-103 | The loader's pages are the runner's planned pages |
| FrameLoader.LoaderFrameIsImage | lcl/src/task/loader.rs:231-265 | A page at or above the segment start gets the reference image |
| FrameLoader.UnalignedFirstPage | lcl/src/task/loader.rs:232-242 | The first page of an unaligned segment is right if and only if every file byte that belongs there is zero |
| FrameLoader.FirstPageIsImage | lcl/src/task/loader.rs:231-265 | What belongs on the first page, as the condition above compares it, is the reference image |
| FrameLoader.LoaderImage | lcl/src/task/loader.rs:206-269 | Byte for byte, a page at or above its segment's start holds the reference image |
| FrameLoader.FramesAgree | lcl/src/task/runner.rs:254-264 | The two loaders fill a page alike if and only if the segment does not start inside it or has only zeros there |
| FrameLoader.LoadersAgree | lcl/src/task/loader.rs:206-269 | For page-disjoint, in-file segments without relocation both loaders leave the same pages with the same contents if and only if segments that start inside a page have only zeros on it |
| FrameLoader.NoRelocation | lcl/src/task/runner.rs:47 | The runner relocates by zero if and only if the lowest segment starts at the load base |
| StartStack.BuildStack | lcl/src/task/runner.rs:618-725 | Succeeds exactly when the strings and the vector fit the mapped stack; then rsp is 16-byte aligned, argc, argv strings (`busybox` for none), NULLs and all 16 auxiliary pairs are found from it, the strings lie end to end below the platform string, and the vector less than 16 bytes below them |
| StartStack.PlaceStrings | lcl/src/task/runner.rs:647-664 | Every argument is placed NUL-terminated below the last, disturbing none |
| StartStack.PushWords | lcl/src/task/runner.rs:711-725 | The vector is written upwards from the aligned base without touching a string |
| StartStack.PlaceVector | lcl/src/task/runner.rs:697-725 | Aligning before writing gives an entry state that meets the ABI |
| StartStack.ArgvReadsBack | lcl/src/task/runner.rs:654-664 | Read as C strings, argv is the argument list, for arguments without NUL |
| StartStack.AuxiliaryVectorReads | lcl/src/task/runner.rs:668-692 | Looked up by type behind the NULLs of argv and the environment, as a C library does: 3, 4 and 5 are the address, entry size and number of the program headers, 6 is 4096, 9 the entry point, 15 points at `x86_64`, 17 is 100, 25 points at the bytes i ^ 0xA5, and 7, 11 to 14, 16 and 23 are 0 |
| StartStack.NoOtherTypes | lcl/src/task/runner.rs:675-692 | Any other type is not found |
| FlatImage.BuildKernelBin | tools/mk-bzimage.py:31-43 | The append-and-pad loop builds the appended image, or gives up without LOAD segments |
| FlatImage.BuildFlatBinary | tools/mkimage.py:80-92 | The blit loop builds the preallocated image, its size and base |
| FlatImage.AlignUpRounds | tools/mkimage.py:19-20 | Masking rounds up to the next multiple of 4096 |
| FlatImage.SortKeeps | tools/mkimage.py:88 | Sorting by address is ascending and keeps the segments |
| FlatImage.SortIsStable | tools/mk-bzimage.py:31 | Segments at the same address keep their order |
| FlatImage.BlitSizeCovers | tools/mkimage.py:80-86 | The preallocated buffer is whole pages, reaches to the end of every segment's file and memory part, and less than a page further |
| FlatImage.BuildersAgree | tools/mkimage.py:80-92 | For in-file segments with filesz <= memsz that are in order, the appended image is a prefix of the preallocated one, and the rest of that is zero and shorter than a page |
| FlatImage.DisjointIsInOrder | tools/mk-bzimage.py:36-43 | Segments that do not overlap are in order |
| FlatImage.BuildersAgreeIffInOrder | tools/mkimage.py:80-92 | The builders agree on every file of a given length if and only if, by ascending address, each non-empty file part starts at or behind everything before it |
| FlatImage.SegmentsSitAtTheirAddress | tools/mk-bzimage.py:34-43 | In both images every segment sits at paddr - base, zero-filled to its memory size |
| FlatImage.OverlapCanMakeThemDiffer | tools/mk-bzimage.py:37-43 | A pair of overlapping segments for which the images differ |
| Ipc.IpcBuffer.Read | crates/sel4-sys/src/ipc_buffer.rs:97-103 | Reading past the 120 registers yields zero |
| Ipc.IpcBuffer.Write | crates/sel4-sys/src/ipc_buffer.rs:106-110 | Writing past the 120 registers changes nothing |
| Ipc.PackWord | lcl/src/fs/ipc_client.rs:75-81 | The inner loop ORs up to eight bytes into their little-endian word |
| Ipc.IpcBuffer.EncodeBytes | ext4-srv/src/main.rs:131-144 | Packs the bytes from the start register on and changes no other register |
| Ipc.IpcBuffer.DecodeBytes | lcl/src/fs/ipc_client.rs:88-100 | Unpacks the bytes by shifting and masking |
| Ipc.RoundTrip | lcl/src/fs/ipc_client.rs:72-100 | Unpacking gives the packed bytes back if and only if those that do not fit the registers are all zero; so always up to (120 - start) * 8 |
| Ipc.PackingKeepsArguments | lcl/src/fs/ipc_client.rs:146-153 | Packing leaves every register outside its range alone |
| Ipc.PathRequestFits | lcl/src/fs/ipc_client.rs:136-153 | A path request's length covers every register the server reads if and only if the path has at most 920 bytes, and then fits 7 bits |
| Ipc.BytesArrive | lcl/src/fs/ipc_client.rs:124-131 | Bytes packed on one side unpack on the other, whatever was left in its registers |
| Dirents.Getdents64 | lwext4-task/src/lib.rs:147-174 | Writes the fields of the records that fit, from the entry offset on, over whatever the buffer held, and moves the offset past them |
| Dirents.PackedIntoZeros | ext4-srv/src/service.rs:261-262 | In a zeroed buffer that leaves exactly the records, and zeros behind them |
| Dirents.RecordsAligned | lwext4-task/src/lib.rs:154 | Whatever a call returns is a multiple of eight bytes |
| Dirents.PackedFits | lwext4-task/src/lib.rs:155-157 | The records that are packed fit the buffer together, and with the next one they would not |
| Dirents.RecordFields | lwext4-task/src/lib.rs:158-167 | Every field of every packed record: inode 0, the position where it ends, its own length, type 0, at most 255 bytes of the name, and zeros |
| Dirents.RecordsParse | lwext4-task/src/lib.rs:158-167 | Reading records back by their reclen gives exactly the packed names, in order |
| Dirents.PagingIsContiguous | ext4-srv/src/service.rs:257-272 | Calls with any buffer sizes deliver one contiguous run of entries, nothing twice and nothing skipped |
| Dirents.ProgressNeedsRoom | lwext4-task/src/lib.rs:155-157 | A call makes progress if and only if the next record fits |
| Dirents.PagingCompletes | ext4-srv/src/service.rs:257-272 | Repeated calls reach the end, in at most as many calls as entries, if and only if every remaining record fits the buffer |
| Dirents.WholeDirectoryVisited | ext4-srv/src/service.rs:257-272 | From the start, repeated calls deliver exactly the directory's entries if and only if every record fits |
| FsModel.StoreOpenMeans | lwext4-task/src/lib.rs:72-97 | Opening takes one free slot of the store and leaves the others; failing takes none |
| FsModel.HandleOpenMeans | ext4-srv/src/service.rs:73-102 | A successful open adds one entry at offset 0 under the next number and one slot; a failed one changes no table |
| FsModel.ProbesRestoreStore | ext4-srv/src/service.rs:105-173 | Access and stat leave the tables and the store exactly as they were |
| FsModel.CloseKeepsServerCoherent | ext4-srv/src/service.rs:242-254 | Closing a live server fd frees exactly its entry and its slot |
| FsModel.DeadNumbersAreRefused | ext4-srv/src/service.rs:176-282 | For a number without a live entry every handler changes nothing and answers by its own rule for 0, 1 and 2, and with -9 for the rest |
| FsModel.WriteGoesToTheOffset | ext4-srv/src/service.rs:185-190 | A write to a live number is lwext4's write of those bytes to the file of its slot at its offset, which stays |
| FsModel.StepKeepsCoherent | lcl/src/fs/ipc_client.rs:136-440 | Every client call keeps the one-to-one correspondence of local fds, server fds and store slots |
| FsModel.OpenStep | lcl/src/fs/ipc_client.rs:136-171 | A successful open adds exactly one entry at each level under fresh numbers; a failed one changes no table |
| FsModel.CloseStep | lcl/src/fs/ipc_client.rs:277-304 | Closing a live local fd always succeeds and frees exactly one entry at each level |
| FsModel.RunKeepsCoherent | lcl/src/fs/ipc_client.rs:104-440 | The correspondence holds over any run of one client |
| FsModel.NumbersAreNeverReused | ext4-srv/src/service.rs:80-86 | A number once dead stays dead for the rest of any run, on both sides |
| FsModel.TablesHaveOneSize | lwext4-task/src/lib.rs:18-19 | All three tables have the same number of entries, at most 500 |
| FsReads.SequentialRead | ext4-srv/src/service.rs:224-239 | Interleaved with any calls that leave fd and file alone, reads deliver the file from the old offset to the new one, which is the old one plus all that was asked for, or the end of the file |
| FsReads.OpenedAtStart | lcl/src/fs/ipc_client.rs:136-171 | For all flags: open succeeds if and only if the path is found and the store has a free slot, empties the path exactly when the flags say so, adding an entry to the directory of a new one, and on success gives a descriptor at offset 0 that reports the size |
| FsReads.OpenTellsOutcome | lcl/src/fs/ipc_client.rs:136-171 | The exact answer of every open: the first reason to fail, by its number (-36, -22, -1, -2 or lwext4's own), or the next local number |
| FsReads.OpenLeavesTheRest | lwext4-task/src/lib.rs:72-97 | What an open, failing or not, leaves at every path: an empty file where it creates or truncates, one more name in the directory of a new file, and everything else as it was |
| FsReads.FailedOpenChangesDisk | lwext4-task/src/lib.rs:75-96 | A failing open changes the disk if and only if it empties a path that was not an empty file already; an open that empties fails if and only if the store is full |
| FsReads.SeekLandsOnTarget | ext4-srv/src/service.rs:196-219 | lseek succeeds exactly for the allowed whence and sign and moves this one offset to the target modulo 2^64, so to the exact target if and only if that is not negative and fits 64 bits; a refused seek changes nothing |
| FsReads.ClosedNumbersAreRefused | lcl/src/fs/ipc_client.rs:208-437 | Through client and server a number that is not live is refused with -9 and changes nothing; only reading 0 and closing 0, 1 and 2 answer 0 |
| FsReads.AccessTellsExistence | ext4-srv/src/service.rs:161-173 | access succeeds exactly for a non-empty path of at most 920 bytes that can be opened while the store has room, names the failure otherwise, and changes nothing |
| FsReads.StatTellsFields | ext4-srv/src/service.rs:105-138 | The exact answer of every stat, which changes nothing: the fields of what is at the path, or the first reason to fail, by its number |
| FsReads.StatFieldsReadBack | ext4-srv/src/service.rs:128-133 | The twenty bytes read back as mode, 64-bit size in two halves, slot and one link |
| FsReads.SequentialListing | ext4-srv/src/service.rs:257-272 | Interleaved with any calls that leave fd and directory alone, listing calls deliver the entries from the old offset to the new one, each once and in order |
| FsReads.ListingDeliversAll | ext4-srv/src/service.rs:257-272 | As many listing calls as entries deliver the whole directory if and only if every record fits the buffer and the 944 bytes of a reply |
| FsReads.CreatingAddsEntry | lwext4-task/src/lib.rs:75-78 | Creating a file in a directory that is open elsewhere adds its name to the entries listed there and leaves the offset |
| Dirents.InsertDuringListing | lwext4-task/src/lib.rs:149-153 | Listed entries and those left to list are together the directory after an insertion if and only if it came at or behind the offset; in front of it, the new entry is missed and the last one listed again |
| FsReads.ListingAcrossCreate | lwext4-task/src/lib.rs:147-170 | A directory listed to its end with a file created in it on the way is delivered as it then is, each entry once, if and only if the new entry came at or behind the offset reached |
| FsReads.EmptyReadMeansAllDelivered | lcl/src/fs/ipc_client.rs:208-242 | What was read is a prefix of the file as long as the server's offset, and the next read into a non-empty buffer returns nothing if and only if the whole file was delivered |
| FsReads.ReadingDeliversAll | lcl/src/fs/ipc_client.rs:208-242 | The whole file is delivered if and only if the reads, each capped at 944 bytes, asked for its length in all; as many non-empty reads as bytes always suffice |
| FsService.FsService.constructor | ext4-srv/src/service.rs:31-49 | The service starts with no live fd, the next number 3 and an empty store |
| FsService.FsService.OpenInStore | lwext4-task/src/lib.rs:72-97 | The store's open takes the model's step |
| FsService.FsService.OpenPath | ext4-srv/src/service.rs:73-102 | The open handler takes the model's step |
| FsService.FsService.AccessPath | ext4-srv/src/service.rs:161-173 | The access handler takes the model's step |
| FsService.FsService.StatPath | ext4-srv/src/service.rs:105-138 | The stat handler takes the model's step, packing the fields |
| FsService.FsService.Read | ext4-srv/src/service.rs:224-239 | The read handler takes the model's step |
| FsService.FsService.Write | ext4-srv/src/service.rs:176-193 | The write handler takes the model's step |
| FsService.FsService.Close | ext4-srv/src/service.rs:242-254 | The close handler takes the model's step |
| FsService.FsService.ReadDirectory | ext4-srv/src/service.rs:257-272 | The getdents64 handler, through the packing loop, takes the model's step |
| FsService.FsService.FileSize | ext4-srv/src/service.rs:275-282 | The file-size handler answers as the model does |
| FsService.FsService.Lseek | ext4-srv/src/service.rs:196-219 | The lseek handler takes the model's step for every whence |
| FsService.FsService.WriteResponse | ext4-srv/src/main.rs:258-328 | The reply registers carry the status, the value or length, and the packed payload, and the reply length counts them |
| FsService.FsService.Dispatch | ext4-srv/src/main.rs:147-252 | One turn of the service loop decodes any request, handles it and encodes the answer |
| FsService.UnknownTypesAreRefused | ext4-srv/src/main.rs:238-243 | A type other than 1 to 11 is answered with 38 and changes nothing |
| FsClient.FsClient.DoCall | lcl/src/fs/ipc_client.rs:124-131 | A call carries the request's registers over, lets the server take one turn, and brings back its status, value and payload |
| FsClient.PathRequestArrives | ext4-srv/src/main.rs:171-174 | The server decodes the very path, flags and type that the client packed |
| FsClient.AnswerArrives | ext4-srv/src/main.rs:247-249 | Answers cross the 7-bit length field unharmed for payloads up to 944 bytes |
| FsClient.ListingArrivesShifted | lcl/src/fs/ipc_client.rs:323-330 | The client decodes a listing one register too early: the new offset's eight bytes come first and the records are cut by eight bytes |
| FsClient.ListingIntactIffEmpty | lcl/src/fs/ipc_client.rs:323-330 | So the client gets the packed listing if and only if it is empty |
| FsClient.FsClient.Open | lcl/src/fs/ipc_client.rs:136-171 | The client's open, through both buffers, is one step of the model |
| FsClient.FsClient.Read | lcl/src/fs/ipc_client.rs:208-242 | The client's read is one step of the model; the buffer starts with the delivered bytes and is untouched behind them |
| FsClient.FsClient.Close | lcl/src/fs/ipc_client.rs:277-304 | The client's close is one step of the model |
| FsClient.FsClient.Access | lcl/src/fs/ipc_client.rs:400-415 | The client's access is one step of the model |
| FsClient.FsClient.Getdents64 | lcl/src/fs/ipc_client.rs:307-338 | The client's getdents64 is one step of the model, with the shifted buffer contents |
| FsClient.FsClient.FileSize | lcl/src/fs/ipc_client.rs:418-437 | The client's file_size is one step of the model |
| FsClient.FsClient.Lseek | lcl/src/fs/ipc_client.rs:341-359 | The client's lseek is one step of the model, negative offsets included |
| FsClient.FsClient.Stat | lcl/src/fs/ipc_client.rs:174-203 | The client's stat is one step of the model, and reports its error or what it misreads from the registers |
| FsClient.StatIsMisread | lcl/src/fs/ipc_client.rs:193-200 | On success the mode it reports is 20, the inode 1, the number of links the first bytes of the path, and the size the two halves of the true size ORed together above the true mode; the size is right if and only if mode and halves happen to agree |
| FsClient.FsClient.Write | lcl/src/fs/ipc_client.rs:245-275 | The client's write to a live number is lwext4's write, at the number's offset, of whatever the server decoded; the standard streams and dead numbers never reach the server |
| FsClient.WriteArrivesIff | lcl/src/fs/ipc_client.rs:258-270 | The server decodes the payload as it was sent if and only if bytes 8 to 15 of it are its length as a word, or, up to eight bytes, an earlier message left that length in register 3 |
| FsClient.FsClient.Mkdir | lcl/src/fs/ipc_client.rs:364-379 | The client's mkdir is refused for an empty path or one over 920 bytes, and otherwise makes lwext4 create the directory and changes no table |
| FsClient.FsClient.Unlink | lcl/src/fs/ipc_client.rs:382-397 | The client's unlink likewise removes the file |
| BlockDisk.Ramdisk.InitFromImage | blk-task/src/lib.rs:44-48 | As much of the image as fits goes to the start of the device; the rest keeps its contents |
| BlockDisk.Ramdisk.ReadBlock | blk-task/src/lib.rs:52-57 | Copies one block, short at the end of the device; panics past it |
| BlockDisk.Ramdisk.WriteBlock | blk-task/src/lib.rs:59-64 | Stores one block, short at the end of the device; panics past it |
| BlockDisk.Ext4Disk.SetPosition | lwext4-task/src/imp.rs:58-65 | The position read back is the position set |
| BlockDisk.Ext4Disk.Seek | lwext4-task/src/imp.rs:21-40 | From the start, the cursor or the end, a seek succeeds if and only if its exact target lies in [0, 4194304], and then lands there; otherwise the cursor stays |
| BlockDisk.Ext4Disk.ReadOne | lwext4-task/src/imp.rs:67-78 | The block loop finishes exactly for aligned transfers that start no block past the end; then it is one flat read and the position advances by the length |
| BlockDisk.Ext4Disk.WriteOne | lwext4-task/src/imp.rs:80-91 | The same for writes, against one flat update |
| BlockDisk.ReadIsSlice | lwext4-task/src/imp.rs:67-78 | An in-range read is the device slice; one that passes the end by a block leaves that block of the buffer alone |
| BlockDisk.WriteReadsBack | lwext4-task/src/imp.rs:67-91 | Written data reads back if and only if what lies past the end of the device was in the buffer anyway |
| BlockDisk.WriteLeavesRestAlone | lwext4-task/src/imp.rs:80-91 | Places a write does not reach read as before |
| BlockDisk.WritingInPieces | lwext4-task/src/imp.rs:80-91 | Successive writes are one flat write |
| BlockDisk.ReadingInPieces | lwext4-task/src/imp.rs:67-78 | Successive reads are one flat read |
| BlockDisk.PiecesReadBack | lwext4-task/src/imp.rs:67-91 | Written in any pieces and read in any others, a stretch of the device comes back as written |
| BlockDisk.CursorStaysNear | lwext4-task/src/imp.rs:21-91 | Over any run the cursor is on the device or exactly one block past its end |
| Signals.TaskSignal.AddSignal | lcl/src/task/signal.rs:39-43 | Adds a number from 1 to 64 to the pending set and ignores every other |
| Signals.TaskSignal.HasUnmaskedSignal | lcl/src/task/signal.rs:46-48 | True if and only if some pending signal is not masked |
| Signals.TaskSignal.PopSignal | lcl/src/task/signal.rs:51-59 | Delivers the least pending unmasked signal and clears just that one |
| Signals.TaskSignal.Sigprocmask | lcl/src/syscall/signal.rs:22-27 | Of every signal from 1 to 64: blocked besides, released, or as the argument says, by `how` 0, 1 and 2; any other `how` is refused without a change, and what is pending stays |
| Signals.SysSigprocmask | lcl/src/syscall/signal.rs:10-31 | Stores the old mask into the task's memory, then fetches the new one from it and applies it signal by signal |
| Signals.SamePointerKeepsMask | lcl/src/syscall/signal.rs:13-20 | With one pointer for both masks the old mask is fetched as the new one if and only if it has no bit in the bytes past the end of the page |
| Signals.SysKill | lcl/src/syscall/signal.rs:71-87 | Signal 0 only tests for existence; numbers above 64 change nothing; missing tasks are refused |
| Signals.SysTkill | lcl/src/syscall/signal.rs:90-101 | As kill, but signal 0 posts signal 64 |
| Signals.TkillAgreesWithKill | lcl/src/syscall/signal.rs:90-101 | tkill agrees with kill if and only if the number is not 0 or 64 was pending |
| Signals.SameSet | lcl/src/task/signal.rs:16-19 | A 64-bit word is determined by its set of signals |
| Signals.SignalsAreConserved | lcl/src/task/signal.rs:39-59 | Over any run: pending before plus newly posted equals delivered plus pending after, for every signal |
| Signals.MaskedIsHeldBack | lcl/src/task/signal.rs:51-59 | A signal that stays masked is never delivered and never lost |
| Signals.MaskIsDecidedByCalls | lcl/src/syscall/signal.rs:22-27 | After any run a signal is masked exactly if the last call that concerns it says so |
| Signals.UnmaskedGetsThrough | lcl/src/task/signal.rs:39-59 | A signal that is pending or posted in a run is delivered in it or by the drain after it if the calls leave it unmasked, and otherwise is still pending unless it was delivered |
| Signals.DrainDelivers | lcl/src/task/signal.rs:51-59 | Draining delivers exactly the pending unmasked signals in strictly ascending order and leaves exactly the pending masked ones |
| Bits.PageMaskIsPageDown | lcl/src/task/mod.rs:118 | The page mask rounds down to a multiple of 4096 |
| Bits.OrDisjointAdds | lcl/src/fs/ipc_client.rs:80 | ORing a shifted byte above lower bytes is an addition |
| Bits.MaskTakesRemainder | lcl/src/fs/ipc_client.rs:96 | Masking low bits takes the remainder |

## Left out

- Kernel calls other than those on the two TCBs, frame mapping and retype: they are taken to succeed, or to end the operation as the code does; the `continue` after a failed ReadRegisters is not modelled.
- Memory effects of emulated system calls: fork shares one address space with the parent, and the proofs about fork speak of registers and cursors only; results of calls that do I/O are supplied from outside.
- FaultLoop.ParentRegionsDisjointIffTheyFit: takes runs without a nested fork; with nested forks the regions are shown disjoint when no cursor wraps (`ParentRegionsDisjoint`), since a snapshot taken in a child leaves a gap of its own.
- Runner.RunnerImage: takes segments whose relocated file part does not wrap, and files shorter than 2^63 bytes, as every slice is.
- Program-header bytes: the loaders take parsed headers, in table order; ELF magic checks and the header-table bound are not modelled.
- FrameLoader.LoadersAgree: does not cover segments that share a page.
- Runner.RunnerLoadsEverySegment: does not cover segments that share a page; for those `RunnerImage` says what the page holds.
- The busybox-specific code patches, the TLS page, the trampoline and the IPC frame of the runner; the extra stack pages are taken as mapped.
- FsService.FsService.Dispatch: what the lossy UTF-8 decoding makes of the payload of a write is supplied from outside, as is what lwext4 then writes; a count too large for the server's memory, where its allocation fails, is decoded to its full length.
- Paths as text: UTF-8 decoding on the server is the identity on the bytes of a valid path, so paths are byte strings. Two different strings are taken to name two different files (`/./f` and `/f`), and a path to lie in the directory its spelling says.
- lwext4 itself: errors of create and open, a file's mode, and the effects of mkdir, unlink and write on the disk are supplied from outside; O_CREAT and O_TRUNC have their Linux values; reading a handle that is a directory yields nothing, and listing one that is a file yields an empty listing, where the code unwraps what lwext4 answers; where a new entry goes in its directory is supplied from outside; seeking past the end of a file, which lwext4 may refuse, yields an empty read.
- FsClient.FsClient.DoCall: takes the kernel's transfer as the client's comments describe it, as many registers as the length says from buffer to buffer; that the first four travel in CPU registers, which `seL4_Recv` stores into the buffer, is not modelled.
- FsClient.FsClient.Write: so a write of up to eight bytes, whose message ends before register 3, is taken to find there what the server's buffer held before.
- FsClient.FsClient.Open: requires the next server number to be below 2^64, which a Vec index always is.
- Signal actions and handlers: they take no part in what is pending, masked or delivered.
- Several clients of the filesystem service at once, and locks: every call runs to its end, as the spin locks of one client make it do.
- `exec.rs`, `mem.rs` (stub stack set-up and `clear_mapped`), `map_blank_page` with real frames, `create_child_vspace`: they would add easy members or have no promise to prove.
- Message-info and capability packing, allocators, device files, pipes, timers, the system-call number table and boot code: easy members.
- `TaskMemInfo` beyond the two maps and the break: the remaining fields take no part in the modelled calls.

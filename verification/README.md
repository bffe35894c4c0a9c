# A verified model of the kernel's core

This project models, in Dafny, the parts of a small 32-bit x86 kernel where correctness rests on invariants that span
many calls: the memory stack, the scheduler with its locks, the ATA driver, the FAT reader and the integer formatter.
`dafny verify dfyconfig.toml` checks all of it.

Each layer that changes state is a class whose methods follow the C code statement by statement, loops included; what a
method does is tied to functions on values, and the lemmas are about those functions. The modules, bottom up:

* `Basics`: what several modules need.
* `Page`, `Pmm`, `Frames`: page-table expressions; the bitmap frame allocator, against a set of free frames; its clients.
* `Kmm`, `Search`, `Slots`, `Vmm`: the kernel map, the top-down search for unmapped slots, and the books (slot contents,
  free frames, and which slot owns which frame).
* `Spaces`, `Umm`: physical memory as words, two-level page tables against a flat map, address-space lifetimes, windows.
* `Heap`, `Alloc`: the block list of `kmalloc` and `kfree`, and the pages it shares.
* `Scan`, `Fates`, `Scheduler`: the scan of `process_switch` on values, an independent account of what becomes of each
  process, and the linked ring in memory.
* `Grants`, `Locks`, `Progress`: a transition system in which the timer may preempt, and an interrupt may release a lock,
  between any two steps of `process_lock`, `intr_lock`, `process_wait` and their callers: what may not happen, and what
  each step achieves.
* `Ata`: byte requests over whole sectors, against a flat byte sequence.
* `Clusters`, `Links`: cluster chains, and the allocation table written from a list of links.
* `LongNames`, `NameSets`, `Fat`, `Paths`: long names, the entries a name is written to, lookup, listing and paths.
* `Number`: `number`, with a reader that recovers what was printed.

Words are integers below 2^32, and wrap-around is written out where the code relies on it. What a drive shows in its
status register after each command, whether a volume's disk answers, and the contents of uninitialised locals are
parameters; the bytes the bitmap holds before `pmm_init` are left to chance.

A predicate that a method branches on is stated a second time, with the bytes and bits as numbers, where a result rests on
it: `Fates`, `Progress`, `Links` and `NameSets` consist of such statements, and `Pmm.ClearIs`, `Page.Layout`,
`Paths.FieldsAre`, `Paths.StepLeads`, `Alloc.RoomIs` and `Number.Characters` are others.

## What the proofs found

These are properties the code does not have on all inputs. Each is proved in the form "it holds exactly when"; where the
condition alone does not name an input on which it fails, an example does.

* The search for kernel slots (`vmm.c:42`, `:129`) tests `p - i < 0` on unsigned numbers, and steps below slot 0. It
  answers properly exactly on the requests `Search.Safe` describes (`Search.SafeExactly`): there is a run above slot 0, or
  a run from slot 0 with room above it, or slot 1 is mapped. Otherwise it answers with a position that leads out of the
  slots (`Search.UnsafeExample`). From the position 0xffffffff the index wraps around: the top pages of the direct map are
  overwritten, and the address returned is one of the direct map (`Vmm.PageAllocator.AllocWrapped`).
* When frames run out in the middle of `vmm_alloc_page`, the rollback (`vmm.c:53-56`) unmaps a slot before it reads what
  to free, so frame 0 becomes free (`Vmm.PageAllocator.AllocAt`). It is sound exactly when there is nothing to roll back.
  A request of three pages with three frames free of four is enough (`Vmm.RollbackExample`).
* `pmm_alloc_page` never gives the frame at the lower search position, so it may answer NULL with one frame free
  (`Pmm.FrameAllocator.AllocPage`, `Pmm.OneFrameExample`).
* `umm_handler` called for a page that has a frame already replaces the frame, which then belongs to nobody and is not
  free. The frames stay accounted for exactly when the page was vacant or `pmm_alloc_page` has no frame to give
  (`Umm.AddressSpaces.Handler`, `Umm.LostExample`).
* When frames run out in `vmm_mmap_pde_page`, the rollback (`vmm.c:144-146`) leaves the lowest slot of the run mapped but
  counted as unmapped. The books stay right exactly when the call succeeds, finds no run, or cannot get a frame for its
  first page; where no table is missing it succeeds exactly when there is a run and as many frames above the lower search
  position as pages without one, and in general with more frames than pages and tables missing, and not with three less
  (`Umm.AddressSpaces.MmapPdePage`, `Umm.WindowsExample`).
* `umm_mmap_kmm` ignores a failing `set_umm_value` (`umm.c:118`, `vmm.c:138`): the call succeeds, the page stays without a
  frame, and the frame taken for it is nobody's once the window is closed. That happens to the first page exactly when it
  has no frame, its table is missing, and no two free frames are further apart than neighbours (`Spaces.Refused`): the
  table is refused although a frame is free (`Umm.AddressSpaces.WindowFresh`, `Umm.LeakExample`). In a longer range every
  page left without a frame costs exactly one (`Umm.AddressSpaces.Window`).
* `vmm_mmap_pde_page` looks a physical address up in the kernel map, which gives another address for frames beyond the
  direct map (`Umm.AddressSpaces.PhysicalLookup`).
* `vmm_free_page` and `vmm_ummap_page` count pages as given back even when the range ends beyond the map and nothing is
  unmapped (`vmm.c:95`, `:181`), so the count of unmapped slots is right afterwards exactly when the range lies in the slots
  or the direct map (`Vmm.PageAllocator.FreePage`); for `vmm_ummap_page` the slots must be windows as well
  (`Vmm.PageAllocator.UmmapPage`).
* `process_switch` never ends when no process can run (`Scan.EndsExactly`, `Scan.StuckExample`), and frees the process it
  switches away from exactly when that one has exited and no other one runs (`Scan.ReapsPrevious`, `Scan.ReapedExample`).
* `process_create` reads the link of the current process and stores the new one later (`process.c:119-121`): the ring stays
  whole exactly when the successor is still the same process at the store (`Scheduler.Kernel.Insert`,
  `Scheduler.InsertExample`); a switch in between parts the two only by freeing one of them (`Scan.NeighboursStay`).
* The last sector of a drive is never served (`Ata.ServedInFull`, `Ata.LastSectorExample`). A write that covers no sector
  (`Ata.NoSector`) goes out with the count 0, which asks the drive for 256 or 65536 sectors (`Ata.CountArrives`), and when
  it starts inside the last sector it is reported as written, or as a negative length from 2 GiB on. So a write of
  0xffffffff bytes there answers -1 although no command was refused; that is the only -1 without a refusal or a mode that is
  not LBA (`Ata.Controller.Write`): what is read back is as long as what was reported exactly when the request does not start there
  (`Ata.Controller.WriteThenRead`).
* `read_cluster` zeroes the offset before it uses it (`fat.c:134-135`): a request arrives in place exactly when it starts
  a cluster or ends in the one it starts in (`Clusters.ReadExactly`, `Clusters.MisplacedExample`).
* `read_cluster` multiplies the cluster number by the cluster size in 32 bits (`fat.c:130`, `:138`). It finds the bytes asked
  for, whatever the volume holds, exactly when the clusters they are in lie in the first 4 GiB of data
  (`Clusters.FindsItsData`); with clusters of 32 KiB, cluster 0x20002 is read where cluster 2 is (`Clusters.FarExample`). The
  length of a directory is such a product too (`fat.c:224`, `:270`, `:309`, `:371`): all its entries are scanned exactly when
  it is smaller than 4 GiB (`Fat.ScansAll`).
* `dir_cluster` returns exactly on chains that never come back to a cluster they met (`Clusters.EndsExactly`,
  `Clusters.CycleExample`).
* Listing a directory takes the place of a name part from the disk (`fat.c:318`, `:325`, `:380`, `:387`). The stores of one
  set stay in the name field exactly when every entry read has a number from 1 on and room for its characters
  (`LongNames.StaysInside`); an order byte of 0x7f stores at place 806 of 256 (`LongNames.OutsideExample`).

## Model

| member | source | states |
|---|---|---|
| Page.MasksAreArithmetic | include/arch/x86/page.h:25-28 | on 32-bit vectors, the masks and shifts are the quotients and remainders used throughout |
| Page.SetPageIsASum | include/arch/x86/page.h:25 | the two halves that set_page joins have no bit in common |
| Page.EntryKeepsFrame | include/arch/x86/page.h:25-26 | an entry gives back the frame and the attribute bits it was built from |
| Page.IndicesNamePage | include/arch/x86/page.h:27-28 | directory and table index agree on two addresses exactly when these lie in one page |
| Page.Layout | include/kernel/def.h:31-33 | the pages and directory entries counted as the user's are those below 3 GiB; the kernel map and the direct map end where they should |
| Pmm.StoreIsShift | kernel/mm/pmm.c:22-25 | the masks stored with are a 1 shifted to the frame's place |
| Pmm.ClearIs | kernel/mm/pmm.c:34-41 | a frame is free exactly when the bit shifted out of its byte is 0 |
| Pmm.ClearAfterStore | kernel/mm/pmm.c:19-32 | storing one masked byte changes the state of one frame and no other |
| Pmm.FrameAllocator.SetBitMask | kernel/mm/pmm.c:19-32 | the bytes keep standing for the set of free frames; one frame enters or leaves it; beyond the bitmap nothing happens |
| Pmm.FrameAllocator.GetBitMask | kernel/mm/pmm.c:34-41 | 0 exactly for a free frame, 1 for one that is out, -1 beyond the bitmap |
| Pmm.FrameAllocator.AllocPage | kernel/mm/pmm.c:47-61 | the highest free frame above the lower search position; NULL exactly when no frame but that one is free |
| Pmm.OneFrameExample | kernel/mm/pmm.c:47-61 | an allocator with one frame free that answers NULL |
| Pmm.FrameAllocator.UpAllocPage | kernel/mm/pmm.c:63-90 | first fit: the lowest run of free frames that starts between the search positions; NULL exactly when there is none, and for two frames or more when there is none anywhere |
| Pmm.FrameAllocator.RunLength | kernel/mm/pmm.c:67-71 | how far the run of free frames goes, up to the length asked for |
| Pmm.FrameAllocator.FirstFit | kernel/mm/pmm.c:66-86 | skipping what was looked at loses no start of a run |
| Pmm.FrameAllocator.FreePage | kernel/mm/pmm.c:92-101 | the frames of the run that have a bit become free; search bounds and counter stay right when all of them were out |
| Pmm.BoundedAfterReturn | kernel/mm/pmm.c:97-99 | freeing moves the search positions just far enough for every free frame to lie between them |
| Pmm.FrameAllocator.constructor | kernel/mm/pmm.c:103-131 | free at first: exactly the frames from the first page behind the bitmap up to the end of memory |
| Frames.LeasesApart | kernel/mm/pmm.c:47-101 | two runs of frames that are out have no frame in common |
| Frames.Clients.GiveBack | kernel/mm/pmm.c:92-101 | a run that is returned becomes free as a whole, and every usable frame stays free or with its one owner |
| Frames.Clients.Serve | kernel/mm/pmm.c:47-101 | over any run of both allocators and of returns, every usable frame is free or has one owner |
| Kmm.KernelMap.constructor | kernel/mm/kmm.c:13-30 | no page is mapped and every entry is 0; the directory has no user table, and from index 0x300 on the 0xc0 tables of the kernel map, present and writable |
| Kmm.KernelMap.PageMmap | kernel/mm/kmm.c:32-36 | one entry becomes the frame, present and writable (low bits 3), no other changes; an index beyond the map changes nothing |
| Kmm.KernelMap.PageRemove | kernel/mm/kmm.c:38-41 | one entry becomes 0, no other changes |
| Kmm.KernelMap.GetAttr | kernel/mm/kmm.c:43-45 | the address of the frame a page maps, 0 when it maps none |
| Search.FitsMeaning | kernel/mm/vmm.c:41-44 | what the inner loop tests, against what it is meant to test: they differ only where every slot down to 0 is unmapped |
| Search.SkipMissesNothing | kernel/mm/vmm.c:70-72 | a mapped slot rules out every position the search then skips |
| Search.SkipHighest | kernel/mm/vmm.c:39-73 | so skipping finds what trying every position finds |
| Search.SafeExactly | kernel/mm/vmm.c:39-73 | the search answers with slots that exist exactly on requests with a run above slot 0, or one from slot 0 with room above, or slot 1 mapped |
| Search.SingleIsSafe | kernel/mm/vmm.c:39-73 | one slot can always be asked for |
| Search.UnsafeExample | kernel/mm/vmm.c:39-73 | a request that is answered with the position 0xffffffff |
| Vmm.PageAllocator.FindRun | kernel/mm/vmm.c:39-73 | the highest position at which the request fits, wrap-around below slot 0 included |
| Slots.BackedRun | kernel/mm/vmm.c:47-51 | the slots of the run, and no others, get distinct frames that were free, from the highest down |
| Slots.BackedOwners | kernel/mm/vmm.c:47-51 | exactly the frames taken get an owner, the slot that maps them |
| Slots.BackedBooks | kernel/mm/vmm.c:62-65 | every slot above vmm_pos stays mapped, and the number of unmapped slots falls by the length of the run |
| Vmm.PageAllocator.Back | kernel/mm/vmm.c:47-51 | backing goes on until the run is backed or no frame but the one at the lower search position is free |
| Vmm.PageAllocator.Rollback | kernel/mm/vmm.c:53-56 | the rollback unmaps one slot too high and not the lowest, and frees frame 0 instead of what was taken |
| Vmm.PageAllocator.AllocAt | kernel/mm/vmm.c:46-69 | succeeds exactly when enough frames are available; fails cleanly when none is; otherwise frame 0 is in the free set |
| Vmm.RollbackExample | kernel/mm/vmm.c:46-69 | a fresh allocator of four frames, asked for three pages, answers NULL with frame 0 in its free set |
| Vmm.PageAllocator.AllocPage | kernel/mm/vmm.c:35-78 | the highest run of unmapped slots, backed by the highest free frames; NULL exactly when there is no run or too few frames |
| Vmm.PageAllocator.AllocWrapped | kernel/mm/vmm.c:35-78 | when the search ends at position 0xffffffff and the frames last: pages dmmap - count up to dmmap lose the frames they stand for to the frames taken, no other page changes, and the address is that of the first of them |
| Slots.ReleasedOwners | kernel/mm/vmm.c:87-90 | the frames owned by the run, and no others, become free |
| Slots.ReleasedBooks | kernel/mm/vmm.c:87-95 | every slot above vmm_pos stays mapped, and the number of unmapped slots rises by the length of the run |
| Vmm.PageAllocator.FreePage | kernel/mm/vmm.c:80-97 | in the slots: they are unmapped, their frames freed, and vmm_pos rises to the end of the run if it lies above; in the direct map: the frames are freed; beyond both: only the count moves, which is then wrong |
| Slots.ReleaseUndoesBack | kernel/mm/vmm.c:35-97 | backing a run and releasing it changes nothing, whichever frames were free |
| Vmm.PageAllocator.AllocThenFree | kernel/mm/vmm.c:35-97 | vmm_free_page after vmm_alloc_page restores the kernel map, the free frames, both counters and vmm_pos |
| Vmm.PageAllocator.MmapPage | kernel/mm/vmm.c:99-120 | the direct map where it reaches; else a window in the highest unmapped slot but slot 0, and NULL exactly when there is none |
| Vmm.PageAllocator.UmmapPage | kernel/mm/vmm.c:170-183 | slots are unmapped and no frame is freed; the invariants hold afterwards exactly when the range was in the direct map, or in the slots and made of windows only |
| Slots.ClearedBooks | kernel/mm/vmm.c:175-182 | closing windows leaves every owned frame mapped where it is owned |
| Slots.ClearedExactly | kernel/mm/vmm.c:175-182 | unmapping a run without freeing keeps the books right exactly when every slot of it is a window |
| Vmm.PageAllocator.DmmAllocPage | kernel/mm/vmm.c:185-197 | the lowest run of free frames between the search positions, if it lies in the direct map; NULL exactly when none does, with free frames, count and both search positions as before |
| Vmm.PageAllocator.constructor | kernel/mm/vmm.c:203-222 | entry i of the direct map is frame i, present and writable, every slot is unmapped with the entry 0, the invariants hold |
| Spaces.GetIsFlat | kernel/mm/umm.c:10-17 | reading through the two levels is reading the flat map at the page of the address |
| Spaces.StoreOk | kernel/mm/umm.c:46 | storing an entry changes one page of one address space, and keeps directory and tables apart |
| Spaces.NewTableOk | kernel/mm/umm.c:32-37 | a new zeroed table, entered with low bits 7, changes no page of any address space |
| Umm.AddressSpaces.SetValue | kernel/mm/umm.c:19-49 | after 1 the page has the value and every other page of every address space its old one, even when a table was made; 0 exactly for kernel addresses or when no frame can be had |
| Umm.AddressSpaces.MakeTable | kernel/mm/umm.c:24-37 | the directory entry names a table of zeros, present, writable and open to the user; 0 exactly when no frame can be had |
| Umm.AddressSpaces.AllocPde | kernel/mm/umm.c:51-61 | an address space with no user page and the kernel's entries, in the lowest free frame; NULL exactly when no free frame of the direct map lies below the upper search position |
| Spaces.PagesAfterFault | kernel/mm/umm.c:137-150 | a fault keeps every user frame at one page of one address space |
| Umm.AddressSpaces.Handler | kernel/mm/umm.c:137-150 | the faulting page gets a frame that was free, present, writable and open to the user (low bits 7), no other page changes; it succeeds exactly when a frame can be had and the table is there or can be had, and on failure nothing changes; the frames stay accounted for exactly when the page had no frame or none can be had, and otherwise the old one is lost |
| Umm.AddressSpaces.EnterFrame | kernel/mm/umm.c:19-49 | a frame in hand entered at a page, with low bits 7: a vacant page takes it into the account, a mapped one loses the frame it had; a failed call changes nothing |
| Umm.LostExample | kernel/mm/umm.c:137-150 | a page that faults twice loses the frame of the first fault |
| Spaces.FreedAll | kernel/mm/umm.c:152-174 | the loops meet every user frame and every table of the address space once |
| Umm.AddressSpaces.Free | kernel/mm/umm.c:152-174 | exactly the frames of the address space become free, none of them twice |
| Spaces.WithoutOk | kernel/mm/umm.c:152-174 | the other address spaces are as sound as before |
| Spaces.AccountedDeath | kernel/mm/umm.c:152-174 | in mid-run, ending one of several address spaces keeps the account of the others' frames |
| Umm.AddressSpaces.Lives | kernel/mm/umm.c:51-174 | over any interleaving of births, faults and deaths of address spaces, free set and free count return to their starting values |
| Umm.PageSplit | kernel/mm/umm.c:111-112 | counting that many pages on from the first one ends behind the page of the last byte |
| Umm.AddressSpaces.MmapPdePage | kernel/mm/vmm.c:122-168 | windows onto the pages in the highest run of unmapped slots, where pages without a frame get one; with no table missing it succeeds exactly when there is a run and a frame for every page that lacks one, in general with more frames than are missing and not with three less; on failure one slot stays mapped and the count of unmapped slots is wrong exactly when a run was found and its first page was reached |
| Umm.AddressSpaces.OpenWindows | kernel/mm/vmm.c:134-151 | the loop stops at a page that has no frame when none can be had; where no table is missing it reaches the end exactly when there are as many frames above the lower search position as pages without one |
| Umm.AddressSpaces.GiveBack | kernel/mm/vmm.c:144-149 | the rollback unmaps all slots of the run but the lowest, which is left out of the count |
| Umm.WindowsExample | kernel/mm/vmm.c:122-168 | three pages asked for with two frames free: NULL, and the books are wrong |
| Umm.AddressSpaces.PhysicalLookup | kernel/mm/vmm.c:138 | a physical address looked up in the kernel map is itself exactly when its frame is in the direct map, or mapped by the slot of that number; an unmapped slot makes it frame 0 |
| Umm.AddressSpaces.WindowFresh | kernel/mm/umm.c:116-119 | the page gets its frame exactly when its table is there or two free frames are no neighbours; otherwise the frame taken, the highest, is neither free nor in use nor owned; NULL exactly when no slot or no frame can be had, with everything as before |
| Umm.LeakExample | kernel/mm/umm.c:109-135 | with frames 2 and 3 free, a window onto a vacant page is opened and closed: the page has no frame, 2 is free, and 3 is nobody's |
| Umm.AddressSpaces.MmapKmm | kernel/mm/umm.c:109-129 | the kernel range has the offset of the user range in its page; NULL beyond the user half; for one page, or where no table is missing, NULL exactly without a run or a frame for every page that lacks one; when a failure leaves the books wrong; no page that had a frame changes |
| Umm.AddressSpaces.ShownAliases | kernel/mm/umm.c:109-129 | page by page, the kernel range maps the frames of the user range, but for pages whose table could not be had: the first is one exactly when it is refused, each costs a frame that nobody has, and there are none only with as many frames as missing pages and tables, and none for certain with one more |
| Umm.AddressSpaces.UmmapKmm | kernel/mm/umm.c:131-135 | the page count is computed anew from the unaligned pointer, and those slots are unmapped; the invariants hold afterwards exactly when they were windows, or the pointer was to the direct map |
| Umm.AddressSpaces.ShownCloses | kernel/mm/umm.c:131-135 | what was shown owns no frame, and closing it gives back the slots of before |
| Umm.AddressSpaces.Window | kernel/mm/umm.c:109-135 | opening a range and closing it by the returned pointer restores the kernel map and its free count and leaves every user page that had a frame in place; as many frames are nobody's afterwards as pages of the range are left without one, the first page exactly when it is refused; when the call fails, the map is restored exactly when nothing was reached |
| Heap.BlocksDisjoint | kernel/mm/alloc.c:15-40 | live blocks, header included, do not overlap |
| Heap.GoodInLastPage | kernel/mm/alloc.c:21-23 | a block placed behind the last one keeps the order of the blocks that share a page |
| Heap.GoodAfterRemoval | kernel/mm/alloc.c:42-68 | freeing any block keeps that order |
| Heap.SharedPages | kernel/mm/alloc.c:49-62 | the two neighbours in the list decide which pages of a block others use |
| Heap.ReturnedExactly | kernel/mm/alloc.c:46-66 | a page goes back exactly when the last block in it dies |
| Heap.LinkedAfterLinkIn | kernel/mm/alloc.c:30-36 | the stores of kmalloc append the block to the doubly linked list |
| Heap.LinkedAfterLinkOut | kernel/mm/alloc.c:49-64 | the stores of kfree take the block out of it |
| Alloc.RoomTest | kernel/mm/alloc.c:21 | the rounding test holds exactly when the new block stays in the last page |
| Alloc.KernelHeap.Malloc | kernel/mm/alloc.c:15-40 | 12 bytes behind the end of the last block exactly when the rounded-up gap there has room for the length and 12 more, with no page taken; else 12 bytes into the first of as many pages as it needs, none of them the heap's before; NULL exactly when vmm refuses |
| Alloc.KernelHeap.Unlink | kernel/mm/alloc.c:42-64 | the list without the block, and the pages no other block touches |
| Alloc.KernelHeap.Free | kernel/mm/alloc.c:42-68 | the block leaves the list, and exactly the pages no other block touches go back |
| Alloc.EveryRun | kernel/mm/alloc.c:15-68 | over every run, in any order: blocks stay well placed, the pages had from vmm are those the blocks touch, and with no block left kernel map, free frames and owners are as at the start |
| Scan.ReadyRuns | kernel/process/process.c:40-53 | a pass over the queue makes some process run exactly when one could |
| Scan.PassSettles | kernel/process/process.c:40-53 | a second pass finds no lock to grant, nobody to wake and nobody dead |
| Scan.ScanEnds | kernel/process/process.c:24-60 | when some process can run, the scan ends within two rounds at a running one, with ring and lock bytes in closed form |
| Scan.NeverEnds | kernel/process/process.c:28-59 | when none can, no number of turns ends it |
| Scan.EndsExactly | kernel/process/process.c:24-60 | the scan ends exactly when some process runs, or waits for a free lock, or has its time come |
| Scan.StuckExample | kernel/process/process.c:24-60 | one process waiting for a lock that stays taken: no turn of the scan makes it run |
| Scan.SwitchedKeeps | kernel/process/process.c:24-60 | the ring keeps every process once, but for the dead met before a running one |
| Scan.ReapsPrevious | kernel/process/process.c:55-57 | the process switched away from is freed in its own switch exactly when it has exited and no other one runs |
| Scan.ReapedExample | kernel/process/process.c:55-57 | a process that has exited is freed in the switch away from it, as the other one was waiting until then |
| Scan.Closer | kernel/process/process.c:28-59 | a process the scan does not reach keeps its state and comes strictly closer |
| Scan.NeighboursStay | kernel/process/process.c:24-60 | two processes next to each other on the ring stay so unless one of them is freed |
| Fates.SwitchedFates | kernel/process/process.c:24-60 | the ring after a switch holds exactly the fates of the processes before: those passed run if their time has come, or if they are the first to wait for a lock whose byte is 0; the dead that are passed are gone; the others stay as they are |
| Fates.SwitchedBytesFates | kernel/process/process.c:40-47 | a lock byte becomes 1 exactly when it was 0 and one of those passed waits for it; no other byte changes |
| Fates.RunsNext | kernel/process/process.c:28-39 | the process switched to is the first that runs |
| Fates.WakesNext | kernel/process/process.c:28-53 | where none runs, it is the first that comes to run |
| Scheduler.Kernel.Unlink | kernel/process/process.c:55-58 | the ring is one cycle without the dead process, which is freed |
| Scheduler.AtTurn | kernel/process/process.c:28-59 | as long as nothing runs at the head the scan has turns left, and never meets a dead process alone on the ring |
| Scheduler.Kernel.Switch | kernel/process/process.c:24-60 | the linked ring, the lock bytes and the freed processes are those of the scan on values, and the loop ends; everybody on the ring has his fate, a sleeper that is passed runs exactly when the tick has reached its time, and a byte is taken exactly when it was 0 and somebody passed waits for it |
| Scheduler.FreedAreDead | kernel/process/process.c:55-58 | freed are exactly the dead met before a running process |
| Scheduler.Kernel.Prepare | kernel/process/process.c:99-119 | the new process is linked to the successor of the current one, which does not know it yet |
| Scheduler.Kernel.Insert | kernel/process/process.c:119-121 | the ring is one cycle afterwards exactly when that successor is still the successor |
| Scheduler.InsertExample | kernel/process/process.c:99-121 | the successor is dead and freed between the two stores: the ring is broken |
| Scheduler.Kernel.Create | kernel/process/process.c:99-125 | the new process comes right after the current one on a ring that stays one cycle; 0 without memory |
| Scheduler.Kernel.Mark | kernel/process/process.c:91-92 | only the running process changes, and the ring stays as it is |
| Scheduler.Kernel.constructor | kernel/process/process.c:62-75 | a ring of one running process |
| Grants.PassGrants | kernel/process/process.c:40-47 | however many waiters one scan meets, a lock goes to one of them, its byte was 0 and becomes 1, and no other byte changes |
| Grants.SwitchOk | kernel/process/process.c:24-60 | the same for a whole scan, and every process on the ring after it was on it before, with its state unless granted, or asleep and its time come |
| Locks.StepKeeps | kernel/process/lock.c:8-23 | every step of a process, of the timer or of an interrupt keeps the invariant |
| Locks.MutualExclusion | kernel/process/lock.c:8-12 | in every reachable state a process lock byte is 1 iff exactly one process is between its grant and its unlock |
| Locks.LockReturnsHolding | kernel/process/lock.c:8-12 | process_lock comes back only to the one holder |
| Locks.IntrLockReturnsReleased | kernel/process/lock.c:14-23 | intr_lock comes back only after a release since the lock was armed |
| Locks.NoLostWakeUp | kernel/process/lock.c:14-23 | a release is seen by the test, or leaves the waiter grantable, and the next scan that passes it makes it run |
| Locks.Examined | kernel/process/process.c:28-59 | with no creation, every process is passed by a scan or dispatched within as many switches as it is away |
| Locks.Dispatched | kernel/process/process.c:28-39 | round robin: a running process is dispatched within as many switches as it is away |
| Progress.UnlockFrees | include/kernel/process/lock.h:10 | after an unlock the byte is 0 and nobody holds the lock; nothing else has changed |
| Progress.ReleaseFrees | include/kernel/process/lock.h:11 | after a release the byte is 0 and the release is on record; nothing else has changed |
| Progress.SwitchExactly | kernel/process/process.c:24-60 | a switch can be made exactly when some process runs, has slept long enough, or waits for a byte that is 0; it takes one tick |
| Progress.HandedOn | kernel/process/process.c:40-47 | a lock whose byte is 0 goes to the first waiter passed: that one runs and is the only holder, the byte is 1, the other waiters stay |
| Progress.LockGoesOn | kernel/process/lock.c:8-12 | where the byte is 0 the steps of process_lock can be taken up to its interrupt and through it, and the caller is then on the ring as a waiter that a scan can grant |
| Progress.LockIsHad | kernel/process/lock.c:8-12 | where the byte is 0 and nobody else can run, the steps of process_lock can be taken, and end with the caller as the one holder |
| Progress.LoneHalts | kernel/process/lock.c:16-18 | a process alone on the ring stays in the loop of intr_lock while the byte is 1, and leaves it after a release |
| Progress.ReleaseIsSeen | kernel/process/lock.c:14-23 | arming, release and the steps of intr_lock can be taken in a row, and intr_lock comes back without waiting |
| Progress.ArmedWaits | kernel/process/lock.c:14-23 | without a release the steps lead to the state LOCK, with another process on the ring |
| Progress.SleepIs | kernel/process/wait.c:7-11 | process_wait can be taken, and leaves the caller asleep until n ticks from then |
| Progress.SleeperWakes | kernel/process/process.c:48-53 | a switch that passes a sleeper makes it run if its time has come, and leaves it alone otherwise |
| Progress.SleepsUntil | kernel/process/process.c:48-53 | over every run, a sleeper sleeps as long as its time has not come |
| Progress.ExitIs | kernel/process/process.c:91-92 | process_exit leaves the running process dead and nothing else changed |
| Progress.DeadGoes | kernel/process/process.c:55-58 | a switch that passes a dead process takes it off the ring |
| Progress.CreateIs | kernel/process/process.c:99-125 | process_create puts a running process with a new number right after the current one |
| Ata.DeviceByteIsOr | driver/ata.c:260 | the bytes joined in the device register add up |
| Ata.Selected28 | driver/ata.c:252-262 | a drive that decodes its registers reads the drive number, sector and count it was asked for, 256 sectors going as 0 |
| Ata.Selected48 | driver/ata.c:280-296 | the same with two bytes a register, 65536 sectors going as 0 |
| Ata.ServedInFull | driver/ata.c:342-348 | a request is served in full exactly when it stays clear of the last sector |
| Ata.LastSectorExample | driver/ata.c:342-348 | a drive of one sector serves nothing |
| Ata.NoSector | driver/ata.c:426-430 | a request within the drive covers no sector exactly when it starts in the last one, or asks for nothing at a sector start |
| Ata.CountArrives | driver/ata.c:252-296 | the drive reads back the count it was sent exactly when that is from 1 to 256, or to 65536 with two bytes; 0 asks for the most |
| Ata.Controller.ReadData | driver/ata.c:314-332 | exactly the wanted bytes are stored, each in its place |
| Ata.Controller.Read | driver/ata.c:334-383 | the bytes of the drive, as many as are served, or the buffer untouched; -1 exactly for a drive number from 4 on, or a request that covers a sector on a drive that is in neither LBA mode or shows an error for the one command sent |
| Ata.TailRead | driver/ata.c:440-444 | the second margin has less than a sector, and is empty when the request is cut short, though its length wraps around |
| Ata.ImageIs | driver/ata.c:385-416 | the bytes chosen from the two margins and the buffer are the sectors with the request in place |
| Ata.Controller.WriteData | driver/ata.c:385-416 | the words sent, odd and even boundaries included, replace the sectors by those bytes |
| Ata.Controller.Write | driver/ata.c:418-477 | the drive with the served bytes replaced and everything else untouched; -1 exactly for a drive number from 4 on, a drive in neither LBA mode, an error shown for one of the commands, after which no other is sent, or 0xffffffff bytes inside the last sector; how many commands are sent; nothing changes on -1, behind the drive, or when no sector is covered, and in that last case the whole count is reported, as a signed number, unless the request starts a sector |
| Ata.Controller.PutNothing | driver/ata.c:451-476 | with no sector to write, the length left wraps around below 0, nothing is stored, and the count comes back as a signed number; -1 when the drive shows an error |
| Ata.Controller.WriteThenRead | driver/ata.c:334-477 | what is read is what was written, and as much as was reported exactly when the request does not start inside the last sector; on a drive in an LBA mode that shows no error the read never fails, and the write answers below 0 only for 2 GiB or more inside the last sector |
| Clusters.ChainDistinct | kernel/fs/fat.c:95-111 | a chain that ends meets no cluster twice |
| Clusters.CycleNeverEnds | kernel/fs/fat.c:95-120 | a chain that comes back to a cluster it met has no end |
| Clusters.EndsExactly | kernel/fs/fat.c:95-120 | on every volume, a chain ends exactly when it never comes back to a cluster it met |
| Clusters.CycleExample | kernel/fs/fat.c:95-120 | a table in which cluster 2 leads to 3 and 3 to 2 |
| Clusters.DirCluster | kernel/fs/fat.c:113-120 | on every chain that ends, the number of its clusters, which fits the counter |
| Clusters.ChainLength | kernel/fs/fat.c:113-120 | for clusters within the volume that is the length of the list of them |
| Clusters.ReadCluster | kernel/fs/fat.c:122-150 | how many bytes are read, from the wrapped places, and where each of them lands, the gap behind an unaligned first part included, on chains that end and on those that go round |
| Clusters.FindsItsData | kernel/fs/fat.c:130-138 | the bytes at the wrapped places are the bytes of the chain, whatever the volume holds, exactly when the clusters used lie in the first 4 GiB of data |
| Clusters.FarExample | kernel/fs/fat.c:130-138 | cluster 0x20002 of 32 KiB is read where cluster 2 is |
| Clusters.ReadExactly | kernel/fs/fat.c:134-135 | a request arrives in place, whatever the buffer held, exactly when it starts a cluster or ends in the one it starts in |
| Clusters.MisplacedExample | kernel/fs/fat.c:134-135 | 32 bytes from offset 1 over two clusters of 32: the last of them lands one place too far |
| Links.LinkRead | kernel/fs/fat.c:95-111 | in both formats, next_cluster gives back the link written into the table for the cluster, lowest byte first, and 0 for a link that is no cluster |
| Links.ChainRead | kernel/fs/fat.c:95-111 | a list of clusters written into the table is the chain that is followed |
| Fat.Directory.Read | kernel/fs/fat.c:152-175 | entry n is the 32 bytes at 32n, a product of 32 bits, of what is found along the chain |
| Fat.ScansAll | kernel/fs/fat.c:270-274 | the entries scanned are those of the directory in order, and all of them exactly when it is smaller than 4 GiB |
| Fat.ScansRoot | kernel/fs/fat.c:165-167 | a root directory of fixed size has as many entries as the volume says, 32 bytes each |
| LongNames.LfnCmp | kernel/fs/fat.c:196-206 | 0 exactly when the characters agree and the name ends there |
| LongNames.SkipMissesNothing | kernel/fs/fat.c:292-294 | none of the entries skipped after a mismatch starts a set for the name |
| Fat.Directory.Fragments | kernel/fs/fat.c:279-285 | where the first mismatch behind the first entry of a set is |
| Fat.Directory.Find | kernel/fs/fat.c:257-301 | the short entry at the least index at which a naive matcher succeeds; an entry marked deleted exactly when there is none |
| LongNames.MatchIsName | kernel/fs/fat.c:273-291 | in a well-formed directory a name matches at an index exactly when a set with that name starts there |
| NameSets.FoundExactly | kernel/fs/fat.c:187-206 | where the entries of a name are written, byte by byte, a lookup finds that name and no other |
| NameSets.StoredIsSet | kernel/fs/fat.c:376-398 | such entries, with a directory or a file behind them, are a set the listing shows with that name |
| LongNames.OverSet | kernel/fs/fat.c:402-405 | no set starts inside another one, so stepping over a whole set loses none |
| LongNames.LfnCpy | kernel/fs/fat.c:208-217 | the characters of one entry up to the terminator, cut to a byte each, land at their place, and nothing else changes |
| LongNames.StaysInside | kernel/fs/fat.c:376-398 | the stores of one set stay in the name field exactly when every entry read has a number from 1 on and room for its characters and terminator |
| LongNames.OutsideExample | kernel/fs/fat.c:376-388 | an entry with the order byte 0x7f stores at place 806 |
| Fat.Directory.Assemble | kernel/fs/fat.c:379-400 | for every set that stays in the name field: the parts read land at their places, reading stops at the first entry that does not belong, and the set is shown exactly when it is complete |
| LongNames.ShowsName | kernel/fs/fat.c:379-400 | what is shown of a well-formed set is its name |
| LongNames.ListingIsNth | kernel/fs/fat.c:367-408 | in a well-formed directory the complete sets the listing counts are the sets of the directory, in order |
| Fat.Directory.List | kernel/fs/fat.c:303-413 | on every directory whose sets stay in the name field: the name field and type of complete set number k, with the entry of a directory or a file behind it, and no name when there are not that many |
| Fat.Directory.ListWellFormed | kernel/fs/fat.c:303-413 | in a well-formed directory: the name and type of set number k |
| Fat.Directory.ListThenFind | kernel/fs/fat.c:257-413 | a listed name, looked up, gives the short entry of the first set with that name |
| Paths.GetRootFile | kernel/fs/fat.c:219-255 | the lookup in the root directory, in both of its forms |
| Paths.GetFile | kernel/fs/fat.c:257-301 | the lookup in a directory; an entry marked deleted for what is no directory |
| Paths.LeadsOn | kernel/fs/fat.c:436-450 | a component found leaves the rest of the walk, one not found ends it |
| Paths.FieldsAre | kernel/fs/fat.c:61-75 | first cluster, size, deletion mark and the attribute bits of directories and files are where they should be, byte by byte |
| Paths.StepLeads | kernel/fs/fat.c:442-447 | one component, said in bytes: from an entry with 0x2f in byte 12 into the root directory; deleted from what is deleted or has bit 0x10 of byte 11 clear; else into the chain from bytes 26 and 27 (and 20 and 21 on FAT32) |
| Paths.GetPath | kernel/fs/fat.c:430-465 | the walk along the non-empty parts between slashes, from the root directory; for slashes alone the entry marked with '/', for one name what the root directory holds under it, for two what that leads to |
| Paths.ReadFile | kernel/fs/fat.c:415-428 | as many bytes as are asked for and the file has, by bytes 28 to 31 of its entry, from the offset on, where each of them lands, that they are in place for requests that start a cluster or end in the one they start in, and the bytes of the file where its clusters lie in the first 4 GiB of data; -1 where byte 0 is 0xe5 or bit 0x20 of byte 11 is clear |
| Paths.ReadPath | kernel/fs/fat.c:480-491 | -1 for what is marked with '/', slashes alone among it, is no file or is deleted; else what read_file gives for the entry the path ends at |
| Paths.ListPath | kernel/fs/fat.c:467-478 | the listing of the root directory for what is marked with '/', slashes alone among it; no name for what is no directory or is deleted; else the listing of the directory the path ends at |
| Number.Width | lib/printk.c:76-103 | the output is exactly max(width, sign + prefix + max(precision, digits)) wide |
| Number.Characters | lib/printk.c:64-98 | without a width: '-' first for a number below 0, else '+' or ' ' by the flags; then 0x or 0X, or 0, by base and flags; then digits, in the case asked for |
| Number.Padding | lib/printk.c:80-103 | what the width adds: blanks behind, zeros before the digits, or blanks before everything, by the flags |
| Number.ReadBack | lib/printk.c:52-104 | reading the output gives the 32-bit word that was printed, the most negative int included |
| Number.Convert | lib/printk.c:74-78 | the dividing loop leaves the digits, the last first, in at most 32 characters |
| Number.Pad | lib/printk.c:82-83 | as many fill characters as are left of the width, and a width below 0 behind them |
| Number.Format | lib/printk.c:52-104 | the characters written, where, and nothing else; NULL exactly for a base it does not know |

## Left out

- Vmm.PageAllocator.AllocPage: takes requests for which the search is safe; the answer to the others is `Search.Found`, and `Vmm.PageAllocator.AllocWrapped` what it does from 0xffffffff.
- Vmm.PageAllocator.FreePage: in the slots it takes those that own their frames, in the direct map frames that are out and owned by no slot.
- Umm.AddressSpaces.MmapPdePage: takes requests for which the search is safe, and all memory in the direct map; `Umm.AddressSpaces.PhysicalLookup` says what goes wrong with more.
- Umm.AddressSpaces.MmapKmm: the same, and ranges that are not empty and do not wrap around.
- Umm.AddressSpaces.WindowFresh: the same.
- Umm.AddressSpaces.Window: the same.
- Umm.AddressSpaces.Lives: its faults are at pages without a frame, since every mapped page is present and writable for the user; what a call for a mapped one would lose is in `Umm.AddressSpaces.Handler`.
- Alloc.KernelHeap.Malloc: takes requests vmm_alloc_page answers without a rollback, and lengths that do not wrap around.
- Alloc.KernelHeap.Free: takes blocks that kmalloc gave and that are still live.
- Scheduler.Kernel.Switch: switching stacks and directories, and the use of the previous process's memory after it was freed in its own switch.
- Locks.StepKeeps: creating a process is one step (between `kernel/mm/vmm.c:67` and `kernel/process/process.c:119-121` interrupts are on; `Scheduler.Kernel.Insert` says when that matters). The conventions of the callers are part of the steps: only the holder unlocks, and one process at a time arms an intr lock and waits on it. A scan that nothing can end is not a step.
- Ata.Controller.Write: takes requests that fit the count register and 32 bits. The source takes and drops the channel lock for each margin read and again for the write, with the margins in static buffers, so reading, changing and writing back is one step only for one caller at a time; the model has one. A drive that was sent the count 0 goes on waiting for words that never come.
- Clusters.ReadCluster: takes clusters whose places, as computed, lie within the volume, and lengths that fit the signed result. The table itself is always readable up to the end of the volume.
- Paths.ReadFile: the same.
- Paths.ReadPath: the same.
- Paths.ListPath: takes directories whose sets stay in the name field.
- Clusters.DirCluster: takes chains that end; on others it does not return (`Clusters.EndsExactly`).
- Fat.Directory.List: takes directories whose sets stay in the name field; `LongNames.StaysInside` says which do. Disks that refuse a directory read are not modelled in lookups.
- Paths.GetPath: takes paths whose directories have chains that end, with clusters that lie within the volume.
- Interrupt masking, port addresses, IRQ routing, the waits of the ATA driver for its interrupt lock (the lock itself is in `Locks`), and drive identification.
- Context switching, TLB and page-directory register, descriptor tables, boot and multiboot.
- Console, keyboard, CGA, system calls, loading of programs (ELF, a.out), `vsprintf` around `number`.
- `umm_mmap_page` and `dmm_free_page`: no caller, and a call of `pmm_free_page`.
- `fat_init`, `fat_write` (always -1), partitions.
- `disk_remove` and `disk_remove_part`.

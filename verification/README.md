# Memory management and scheduling of a small Raspberry Pi 3 kernel

The project models the memory core of the kernel and its scheduler, and proves what they promise over
whole runs. The code that updates things in place is modelled by classes and methods with loops and
mutating recursion over the same fields; each method is tied to a specification on values, and the
properties are proved about that specification.

| layer | files | specification |
|---|---|---|
| page allocator (frame tags, 16 circular free lists, split, merge, boot) | `Sequences`, `Dyadic`, `BlockTree`, `BlockOps`, `BlockBoot`, `FreeLists`, `FrameTable`, `PageAllocator`, `BuddyRuns` | the free blocks are the canonical decomposition of the set of free frames |
| slab allocator, `kmalloc`, `kfree` | `SlabHeap`, `Slab` | a set of holders with disjoint memory |
| four-level page tables (`walk`, `mappages`, `copy_page_table`) | `Machine`, `MemBits`, `Translation`, `TableCounts`, `TreeSize`, `PhysState`, `CopySpec`, `Vm` | each root is a partial map from pages to entries |
| demand paging, copy-on-write, fork, exec | `Cow`, `SpaceView`, `Faults`, `Kernel` | memory of each process as if fork had copied all pages at once |
| both on one pool | `SharedPool` | what one side does leaves the memory of the other alone |
| area list behind `mmap` and the fault handler | `Areas`, `AreaList` | a sequence of disjoint ranges in address order |
| run queue, zombie queue | `RoundRobin`, `ThreadList`, `Scheduler` | two sequences of threads and the one running |

How the layers fit together:

* `PageAllocator` keeps the arrays of tags, the linked lists and the reference counts of the source, and
  a ghost tiling of all frames by blocks. While blocks are split or merged the invariant holds up to a
  set of pending blocks, since stale tags survive inside `merge_page` until its final fill. Its ghost
  field `v` is what clients see: free blocks, free frames, live blocks, reserved blocks.
* `Vm` keeps the page tables in frames of that allocator. `SpaceView.ViewOf` reads off, from real memory
  and a list of roots, a state of the copy-on-write machine of `Cow`. Each operation of `Kernel` that succeeds
  is proved to be one step of that machine, or a run of them for exec; this includes the frame that exec
  allocates for a last page without bytes, which is a step of its own (`Strand`). `Kernel` carries the log of
  all steps so far, and its invariant says three things about real memory after that log: each process sees
  exactly what the eager machine holds, a writable frame has one name, and every reference count is the number
  of entries naming the frame if and only if the log is tidy, that is, never maps over a mapped page and never
  strands a frame.
* Fault addresses are any 64-bit numbers. The tables of a process reach 2^48 bytes, but mmap grants areas beyond
  and the walk drops the upper address bits, so that a fault there is handled at another page, `Alias`. `Faults`
  says exactly when a fault is handled at the page where it happened, when processes see a difference, and which
  mmap requests keep all areas in reach.
* Whether an operation finds enough frames is decided by numbers a caller can know before the call: the free
  frames, the tables that a range of pages lacks (`TableCounts.Absent`, `Missing`), and the tables of a tree
  (`TableCounts.Tables`, which `TreeSize` shows to count each table once).
* `Slab` threads its free lists through the first words of the objects in the allocator's memory.
* Every operation of `Vm` and `Kernel` promises `PhysState.OthersKept`: frames that are neither tables, user
  pages nor free keep contents and count, and no live block is released. `Slab.Kmalloc` and `Slab.Kfree`
  promise the same to all holders of memory. `SharedPool` puts both on one page allocator and proves that each
  keeps the invariant of the other.

Addresses are numbers, and `AddrOf` and `FrameOf` convert between kernel addresses and frame numbers.
Memory is a sequence of 4 KiB pages of 512 words of 64 bits. The maximum order is a parameter `m` of
the allocator, with 2^m frames; the source has m = 15. Shifts, masks and rounding are written
arithmetically; `MemBits` defines the bit operations on natural numbers and proves that `Px`, `Linked`,
`Present`, `SetRO`, `ClearRO`, `Attr`, `Target`, `Pte` and the rounding are what the macros of include/mem.h
compute with them. Table
entries follow the VMSAv8-64 descriptor format with a 4 KiB granule of the Arm Architecture Reference
Manual (DDI 0487).

`dafny verify dfyconfig.toml` verifies the whole project.

Where a proof only passes an invariant on, the invariant is wrapped in a predicate that recurses a few
times before it says anything (`layers`); the lemma next to each such predicate shows it equal to what
it wraps.

## Model

| member | source | states |
|---|---|---|
| Dyadic.XorIsSibling | src/mm.c:118 | exclusive or of a block's first page with its size, bit by bit, is the first page of the block with the same parent |
| BlockTree.CanonUnique | src/mm.c:117-136 | any decomposition of the free frames without two free buddies is the canonical one: the blocks are a function of the frames |
| BlockTree.CanonDecomposes | src/mm.c:84-136 | the maximal free aligned blocks are disjoint, in range, cover exactly the free frames, and no two buddies are among them |
| BlockOps.MergeCanon | src/mm.c:117-136 | absorbing free buddies as long as there is one gives the canonical blocks of the larger set of free frames |
| BlockOps.SplitCanon | src/mm.c:84-102 | cutting a free block down and putting the right halves back gives the canonical blocks of the frames that stay free |
| BlockOps.Complete | src/mm.c:329-341 | some listed block is large enough if and only if some aligned run of the wanted size is wholly free |
| BlockOps.RestOrders | src/mm.c:84-93 | a split leaves one block at each order from the target to just below that of the block split, and no other |
| BlockBoot.BootIteration | src/mm.c:161-165 | one turn of the merge loop, whatever it finds at frame i, moves the frontier of the coalesced prefix |
| BlockBoot.BinaryCounter | src/mm.c:157-165 | with the first c frames free, order k has a free block exactly when bit k of c is set, ending where the higher bits of c end |
| BlockBoot.BootCounter | src/mm.c:157-165 | with nothing reserved the blocks below the frontier after frame i are the binary digits of the frontier |
| BlockBoot.AllFree | src/mm.c:157-165 | all 2^m frames free make one block of order m |
| FreeLists.FreeLists.Insert | src/mm.c:33-58 | the frame joins the tail of exactly one ring; all rings stay closed both ways and pg_free stays the length |
| FreeLists.FreeLists.Remove | src/mm.c:60-66 | the frame leaves its ring and is on none afterwards |
| FreeLists.RingRemove | src/mm.c:60-66 | unlinking a node keeps next and prev mutually inverse along the rest of the ring |
| FreeLists.RingInsert | src/mm.c:52-56 | linking a node at the tail keeps next and prev mutually inverse along the longer ring |
| FrameTable.BuddyTest | src/mm.c:119-120 | the tag test of merge_page succeeds if and only if the buddy is a free block of the same order, although tags of frames in transit are stale |
| FrameTable.SingleTest | src/mm.c:161-162 | the tag test of the boot loop succeeds if and only if the frame is a listed block of its own |
| PageAllocator.PageAllocator.MergePage | src/mm.c:117-136 | from a block in transit back to a full invariant: the free blocks are those with the block merged upwards, counts unchanged |
| PageAllocator.PageAllocator.Release | src/mm.c:84-102 | the block in transit ends at the target order tagged as used on every frame, and its right halves are listed |
| PageAllocator.PageAllocator.GetPageframe | src/mm.c:104-115 | the first block of the list is taken and cut; the rest is back on the lists |
| PageAllocator.PageAllocator.MergeAll | src/mm.c:161-165 | the boot loop turns single frames into the canonical blocks of the free frames |
| PageAllocator.PageAllocator.MemReserve | src/mm.c:407-414 | exactly the frames in the computed range leave the free lists and are tagged as used; an address below the pool reserves nothing |
| PageAllocator.ReserveExact | src/mm.c:408-410 | the frames reserved are exactly those with a byte in the range, if and only if: from the pool on, the range is not empty or starts on a page; below the pool, it does not reach into it |
| PageAllocator.PageAllocator.AllocPages | src/mm.c:324-341 | NULL if and only if the order is too high or no aligned run is wholly free; otherwise the smallest sufficient block is split, the result is zeroed, its count is exactly 1, and nothing else changes |
| PageAllocator.PageAllocator.FreePages | src/mm.c:343-366 | kept, reclaimed or caught as a double free, told apart by the old count and by whether the frame was free; a double free is caught before any list or tag changes |
| BuddyRuns.ValidAccounts | src/mm.c:84-136 | the allocator's invariant puts every frame in exactly one place: free, live or reserved |
| BuddyRuns.Conservation | src/mm.c:324-366 | sizes of free, live and reserved blocks add up to the number of frames |
| BuddyRuns.ListsAgree | src/mm.c:33-66 | list k holds exactly the first frames of the free blocks of order k, and pg_free is its length |
| BuddyRuns.TagsAgree | src/mm.c:84-136 | tags of each frame, heads and interior frames alike, are determined by the block it lies in; heads of live blocks have references and all other frames a count of 0 |
| BuddyRuns.SplitAdds | src/mm.c:329-335 | an allocation removes one free block, the smallest sufficient one, and adds exactly one at each order from the wanted one to just below it |
| BuddyRuns.AllocThenFree | src/mm.c:324-366 | an allocation followed by the release of its block restores the previous state |
| BuddyRuns.ReleaseOrder | src/mm.c:343-366 | any set of live blocks released in any order leads to the same state |
| BuddyRuns.ReleaseEverything | src/mm.c:343-366 | releasing all live blocks restores the single block of order m if and only if nothing is reserved |
| BuddyRuns.RunAccounts | src/mm.c:324-366 | after any run every frame is accounted for, no two buddies are free, and reserved frames are never free |
| BuddyRuns.BuddyInit | src/mm.c:139-167 | boot without reservations ends with one free block of order m |
| BuddyRuns.InitReserved | src/mm.c:243-274 | boot with page-disjoint reservations: exactly the frames reserved are never free, the rest is fully coalesced |
| BuddyRuns.DropReferences | src/mm.c:343-366 | a block with n references is kept by n - 1 releases and reclaimed by exactly the n-th |
| SlabHeap.ChainPop | src/mm.c:75-82 | after the first object is taken the chain visits the others, each once, whatever is written to the object taken |
| SlabHeap.ChainPush | src/mm.c:68-73 | after an object is linked in front the chain visits it and then the others, each once |
| SlabHeap.PageConservation | src/mm.c:298-310 | in each open page live objects and free_obj add up to 4096 / size |
| SlabHeap.LiveObjectsApart | src/mm.c:298-313 | two live objects never share a word |
| SlabHeap.ObjAddrProduct | src/mm.c:304-307 | object k of a page lies k times its size behind the start of the page |
| Slab.Slab.RemoveDpage | src/mm.c:75-82 | the first free object becomes live, free_obj falls by one, and only that object is written |
| Slab.Slab.InsertDpage | src/mm.c:68-73 | a live object becomes the first free one of its own page and only its memory is written |
| Slab.Slab.OpenPage | src/mm.c:298-309 | a page is opened if and only if a frame is free; it then holds all objects of its class, all free, and the open pages stay a prefix |
| Slab.Slab.DynamicAllocator | src/mm.c:289-313 | NULL if and only if all open pages of the class are full and no other can be opened; the object comes from the first page that is not full, and a page is opened only when all open ones are full; exactly one object more is live, and cleared |
| Slab.Slab.AllocateLarge | src/mm.c:370-379 | the order is the smallest sufficient one, or 0 when none is; NULL if and only if no aligned run of that order is free; otherwise exactly that block leaves the pool, with one reference, and giving it back restores the pool |
| Slab.Slab.Kmalloc | src/mm.c:368-390 | NULL if and only if, for a small size, all open pages of the smallest sufficient class are full and no other can be opened, and for a large one no aligned run of the smallest sufficient order is free; otherwise the caller gets cleared memory that nobody held, of exactly that class or order; the pool loses exactly the block, or one frame if the class was full, or nothing; all other holders keep their memory and its contents |
| Slab.Slab.Kfree | src/mm.c:392-405 | an object goes back to its own page; a block loses a reference and with the last one goes back to the page allocator; all other holders keep their memory and its contents |
| Slab.Slab.KmallocKfree | src/mm.c:368-405 | kmalloc followed by kfree restores the live objects and the pool, but for a page that may have been opened |
| Slab.Slab.HoldersApart | src/mm.c:368-405 | the address ranges of two holders never overlap and lie in the pool |
| SharedPool.SharedPool.Kmalloc | src/mm.c:368-390 | with everything that Slab.Slab.Kmalloc promises, it leaves all page tables, user pages and counts of the kernel alone, and what it hands out is none of them |
| SharedPool.SharedPool.Kfree | src/mm.c:392-405 | with everything that Slab.Slab.Kfree promises, so does kfree of anything that kmalloc has handed out |
| SharedPool.SharedPool.Spawn | src/mm.c:448-452 | a new process is a step of the machine there, too, and leaves the slab pages and everything kmalloc has handed out as they are |
| SharedPool.SharedPool.Fork | src/mem.c:45-64 | so is fork, which leaves them even when it runs out of frames half-way |
| SharedPool.SharedPool.MemAbort | src/mm.c:466-534 | so is a fault, with the outcome and the step of Kernel.Kernel.MemAbort |
| SharedPool.SharedPool.Load | src/mm.c:469-491 | so is a load, which returns what the eager machine holds |
| SharedPool.SharedPool.Store | src/mm.c:492-531 | so is a store, carried out exactly where the page is mapped and not read-only |
| SharedPool.SharedPool.ExecImage | src/thread.c:207-214 | so are the turns of exec |
| MemBits.IndexBits | include/mem.h:24-26 | Px(level, va / 4096) is (va >> (12 + 9 * level)) & 0x1FF at every level |
| MemBits.LowBits | include/mem.h:17-18 | masking with 2^k - 1 gives what is above the block start of order k, and masking with its complement gives that start |
| MemBits.OneBit | include/mem.h:35 | and, or and and-not with a power of two test, set and clear that bit |
| MemBits.RoundDownBits | include/mem.h:18 | RoundDown(a) is a & ~0xFFF |
| MemBits.RoundUpBits | include/mem.h:17 | RoundUp(a) is (a + 0xFFF) & ~0xFFF in 64 bits |
| Machine.RoundUpCovers | include/mem.h:17 | rounding up covers the number with less than a page to spare where it does not wrap around |
| MemBits.FrameBits | include/mem.h:12 | FrameOf(va) is (va - PAGE_INIT) >> 12 |
| MemBits.PresenceBits | src/mem.c:20 | Linked(e) is the test by PT_PAGE and PT_BLOCK, and Present(e) the test of bit 0 |
| MemBits.SetReadOnly | src/mem.c:53 | SetRO(e) is e or-ed with PT_RO, and ReadOnly(e) is the test of that bit |
| MemBits.ClearReadOnly | src/mm.c:516 | ClearRO(e) is e & ~PT_RO on 64-bit words |
| MemBits.PageBits | include/mem.h:21 | Attr(e) is e & 0xFFF, and Target(e) the frame at PA2KA(PTE2PA(e)) |
| MemBits.EntryBits | src/mem.c:60 | Pte(f, attr) is the physical address of f or-ed with the attributes |
| MemBits.MapBits | src/mem.c:41 | Pte(f, perm + PT_PAGE) is the entry that mappages writes, or-ed together |
| MemBits.UserPteBits | include/mem.h:28-41 | UserPte(f, ro) is the physical address of f or-ed with PT_AF, PT_USER, PT_PAGE and, where read-only, PT_RO |
| MemBits.FaultBits | src/mm.c:467-492 | TranslationFault and PermissionFault are the tests of the fault status code |
| MemBits.WriteBit | src/mm.c:486 | Writable(prot) is the test by PROT_WRITE |
| Translation.ROParts | src/mem.c:52-54 | setting or clearing PT_RO keeps the descriptor and the frame it names |
| Translation.PermParts | src/mem.c:41 | the entry that mappages writes is a page descriptor naming the given frame |
| Translation.HangTrees | src/mem.c:24-27 | linking a blank frame of no use into an empty entry keeps the tables an unshared tree |
| Translation.WriteLookup | src/mem.c:40-41 | writing the level-0 entry of one page changes what that page of that tree translates to and nothing else, in any tree |
| Vm.Vm.Walk | src/mem.c:15-31 | for any 64-bit page: the level-0 table of its alias, found or built with exactly the tables missing on the way; an allocating walk succeeds if and only if at most as many tables are missing as frames are free; only empty table entries and unused frames change |
| Vm.Vm.MapPages | src/mem.c:33-43 | for any 64-bit address and size: the aliases of exactly the pages of the range translate to consecutive frames with the given attributes, every other translation in every tree and all user memory is unchanged, and the loop ends although its test is an inequality; it succeeds if and only if the distinct tables that the range lacks are at most the free frames, and takes exactly those; frames of others are left alone |
| Vm.LoopBounds | src/mem.c:37-39 | the loop meets its end address after the number of pages counted, also where addresses wrap around |
| Vm.PagesExact | src/mem.c:37-39 | the pages visited are exactly those touched by the range, if and only if it is not empty or starts on a page, and does not meet every page |
| PhysState.MapsLow | src/mem.c:33-43 | below 2^48 the pages mapped are those of the range itself |
| Translation.BottomAlias | src/mem.c:18-30 | a walk for any page ends at the table where the walk for its alias below 2^48 ends |
| Translation.LookupAlias | include/mem.h:24-26 | so every page translates like its alias |
| TableCounts.AbsentNext | src/mem.c:15-31 | what a range of pages lacks is what its first page lacks and what the rest lacks once the way to that page is built, without overlap |
| TableCounts.AbsentAtMost | src/mem.c:33-43 | a range never lacks more than three tables a page |
| TreeSize.TablesExact | src/mem.c:45-64 | the recursion over present entries counts every table below the root exactly once, as no table has two parents |
| Vm.Vm.CopyPageTable | src/mem.c:45-64 | into a blank root: both trees translate what the source did, read-only; the count of each frame rises by the number of source entries naming it; all other words of tables and user pages stay as they were; it succeeds if and only if the source tree has at most as many tables as frames are free, and takes one frame for each; frames of others are left alone |
| CopySpec.CopyDescend | src/mem.c:57-62 | the copy of a subtree extends the copy of the table above it by one entry |
| CopySpec.ShareEntry | src/mem.c:52-56 | freezing and sharing one entry extends the copy of a level-0 table by one entry |
| SpaceView.ForkView | src/mem.c:45-64 | what copy_page_table does to memory is the fork step of the copy-on-write machine |
| Cow.StepInv | src/mm.c:510-529 | every step keeps: a frame writable through one entry is named by no other entry of any process, and each count covers all entries naming the frame |
| Cow.StepRefines | src/mem.c:45-64 | every step leaves each process with the memory that the same step of the eager machine gives it |
| Cow.StepGood | src/mem.c:45-64 | each step keeps together: the sole-writer and counting invariant, the agreement with the eager machine, and exact counts if and only if the history is tidy |
| Cow.RunRefines | src/mem.c:45-64 | both hold in every reachable state of every run |
| Cow.ForkLooksEager | src/thread.c:184-186 | every load of every run returns what the process would read had each fork copied all pages at once and were unmapped pages zero |
| Cow.StoreLoad | src/mem.c:45-64 | after a store the word is what was stored, and every other word of every page of every process is kept, however frames are shared |
| Cow.EagerStore | src/mem.c:45-64 | so it is in the eager machine |
| Cow.EagerProcesses | src/thread.c:157-189 | there a new process has zeros and a forked one what its parent has, and nobody else sees a difference |
| Cow.EagerMap | src/mem.c:33-43 | there mapping a page gives the process its contents, and nobody else sees a difference |
| Cow.StepExact | src/mm.c:515-529 | the counts equal the number of entries after a step if and only if they did before it and it neither maps over a mapped page nor strands a frame |
| Cow.StepExcess | src/mm.c:515-529 | the references that no entry holds grow by exactly one, at the frame mapped over or stranded, and never shrink |
| Cow.RunExact | src/mem.c:55 | in every state of every run the counts are exact if and only if no step so far has done so |
| Cow.OverwritingLoses | src/thread.c:208-214 | mapping over a mapped page leaves the old frame with one reference more that no entry holds |
| Kernel.Kernel.Spawn | src/mm.c:448-452 | a new process has an empty address space and the others are unchanged, if and only if a frame is free |
| Kernel.Kernel.Fork | src/thread.c:184-186 | the page-table part of fork is a fork step; it succeeds if and only if there is a free frame for a root and for each table of the parent, and takes exactly those |
| Kernel.Kernel.Load | src/mm.c:469-491 | a load returns what the eager machine holds after the same history, and faults exactly where nothing is mapped, at any address |
| Kernel.Kernel.Store | src/mm.c:492-531 | a store is a store step, after which the word is what was stored, and faults exactly where nothing is mapped or the page is read-only, at any address |
| Kernel.Kernel.DemandPage | src/mm.c:475-490 | exactly one zeroed page is entered, at the alias of the faulting page, read-only unless writable was asked for, if and only if there are frames for it and for the tables missing; it is added where nothing was mapped and maps over what was; when only frames for the tables run out, the page is stranded |
| Kernel.Kernel.WriteFault | src/mm.c:510-530 | a sole owner gets the page back writable and takes no frame; any other gets a fresh copy exactly if a frame is free; an entry that is not read-only leads to the endless loop, and so does one that is missing, if there are frames for its tables |
| Kernel.Kernel.MemAbort | src/mm.c:466-534 | at any 64-bit address: the outcome is a function of what is known before, the areas, the entry and count of the page reached, the free frames and the tables missing; killed if and only if the areas refuse the access; killed or hung, nothing has changed; resumed, exactly the step of Faults.FaultEvent has been made; and the faults of Faults.Resolved are resolved |
| Faults.StepResolves | src/mm.c:475-531 | below 2^48: a write in a writable area to a page mapped read-only goes through afterwards, for a sole owner in any case, who keeps the frame, and for others if a frame is free; a use inside an area of a page not mapped finds zeros, writable if and only if the area is, if four frames are free |
| Kernel.Kernel.EntryWord | src/mem.c:41 | the word of every entry of every process: its frame with PT_AF, PT_USER and PT_PAGE, and PT_RO exactly where it is read-only |
| Kernel.Kernel.ExecImage | src/thread.c:207-214 | page v of the process holds page v of the image, writable, for every page with bytes, and every other page of every process keeps its entry and contents; a last page without bytes is stranded; it succeeds if and only if there is a frame for each turn and for each table lacking; afterwards the counts are exact if and only if they were before, no page was mapped over, and the length is not a multiple of the page size |
| Kernel.ImageTurn | src/thread.c:208-213 | a turn that maps adds its page of the image and changes no other; one that strands a frame changes nothing that a process sees |
| Kernel.ImagePagesExact | src/thread.c:207-211 | the pages mapped are those with a byte of the image |
| Kernel.ExecTidy | src/thread.c:207-214 | a history followed by the steps of exec is tidy if and only if it was, none of the pages was mapped, and no turn lies past the last page with bytes |
| Kernel.ExecStrandExample | src/thread.c:208-213 | an image of exactly one page strands a frame although nothing is mapped over |
| Faults.FaultInside | src/mm.c:469-509 | inside an area: no translation fault is refused, a page becomes writable if and only if its area is, a write is refused if and only if its area is not |
| Faults.FaultProgress | src/mm.c:475-531 | a handled fault inside an area changes the entry of the alias only, writable afterwards if and only if the area is; the faulting page is mapped, and no other page changed, if and only if the address is below 2^48 |
| Faults.FaultInvisible | src/mm.c:475-531 | processes see a difference if and only if a translation fault from 2^48 up hits the alias of a mapped page that is not all zero |
| Faults.InsideLow | src/mm.c:580-591 | all addresses inside areas are in reach if and only if no area ends beyond 2^48 |
| Faults.AcceptedLow | src/mm.c:454-464 | all addresses that the handler accepts are in reach if and only if every area ends below 2^48 |
| Faults.RunLands | src/mm.c:580-637 | over a run of requests in reach every accepted fault is handled at its own page |
| Faults.AliasExample | src/mm.c:475-490 | with an area granted at 2^48, a translation fault there replaces page 0 by zeros, leaves a reference to its old frame, and leaves the faulting page unmapped |
| Faults.AliasWriteExample | src/mm.c:510-517 | with an area at the start of the kernel half, a permission fault there makes page 0 writable, which lies in no area |
| Faults.StoreAfterFork | src/mem.c:52-56 | a store possible before a fork faults after it, in parent and child, and is carried out once the fault is handled if and only if the area of the address is writable |
| Faults.ExecStoreExample | src/thread.c:206-213 | so a store to a text page, possible after exec, is refused after a fork |
| Faults.FaultOutside | src/mm.c:454-509 | outside all areas a translation fault kills exactly when no area ends at the address, and a permission fault exactly when none does or the last area of the list is not writable |
| Faults.EndAddressExample | src/mm.c:459 | at the end address of an area the process is given a writable page that no area covers |
| Faults.EndAddressWriteExample | src/mm.c:497-509 | at the end address of an area that may not be written a write is allowed because another area may be |
| Areas.InsertSorted | src/mm.c:553-578 | insertion keeps the list sorted and disjoint if and only if each old area starts above the end of the new one or ends at or below its start |
| Areas.PlacementSorted | src/mm.c:593-614 | the list stays sorted and disjoint if and only if the request is placeable, also where its end wraps around |
| Areas.ClearMeans | src/mm.c:598-601 | a request is clear if and only if the closed interval of its addresses has none in common with any area, its end included |
| Areas.PlacedMeans | src/mm.c:593-614 | a clear request is granted as asked, another at the end of the first area from which the next is further away than the size, or at 0 |
| Areas.MmapKeeps | src/mm.c:630-637 | one call, with any 64-bit address and length, keeps areas page-aligned, and sorted if and only if the rounded request is placeable |
| Areas.MmapEnds | src/mm.c:593-637 | while all areas end by a limit, a call keeps them so if and only if a condition on the request holds before it |
| Areas.RunSorted | src/mm.c:580-637 | over any run of placeable requests the areas are sorted, disjoint and page-aligned |
| Areas.RunEnds | src/mm.c:580-637 | over any run of such requests no area ends beyond the limit |
| Areas.UnplaceableExample | src/mm.c:613 | a request that cannot be placed is granted at address 0 and breaks the order |
| Areas.WrappingExample | src/mm.c:593-602 | a request whose end wraps around is granted and ends below its start |
| Areas.ChosenContains | src/mm.c:479-485 | inside some area the search finds the one area that contains the address |
| AreaList.AreaList.ChkAddrValid | src/mm.c:454-464 | true exactly when some area, its end included, contains the address |
| AreaList.AreaList.ChkVmaValid | src/mm.c:593-614 | a clear request is granted as asked, otherwise the lowest gap strictly larger than the size, and 0 when there is none |
| AreaList.AreaList.FindProt | src/mm.c:478-486 | the protection of the first area that contains the address, or of the last area |
| AreaList.AreaList.VmaInsert | src/mm.c:553-578 | the list gains the new area before the first one that starts above its end |
| AreaList.AreaList.Mmap | src/mm.c:630-637 | the rounded request is placed and inserted, and the address returned is where the new area starts; unless the rounding or the end wraps around, the area is as long as asked, with less than a page to spare |
| AreaList.AreaList.CopyVma | src/mm.c:616-628 | the copy has the areas of the original on fresh nodes; copying an empty list leaves one empty area |
| RoundRobin.NextCensus | src/thread.c:105-119 | no event makes a thread appear or disappear except creation and reaping |
| RoundRobin.NextPlaced | src/thread.c:52-119 | every thread is in exactly one place after every event |
| RoundRobin.RunPlaced | src/thread.c:52-119 | so it is after every run |
| RoundRobin.Waits | src/thread.c:105-119 | a waiting thread moves up by one place with each call of schedule and never otherwise |
| RoundRobin.Served | src/thread.c:105-119 | the thread at position k is dispatched by exactly the (k+1)-th call of schedule, whatever is created, exits or is reaped meanwhile |
| RoundRobin.Exits | src/thread.c:105-119 | a thread that exits becomes the last zombie, waits nowhere, and the head of the queue runs |
| RoundRobin.Yields | src/thread.c:105-119 | a thread that yields waits behind all that waited before it |
| RoundRobin.Returns | src/thread.c:105-119 | it runs again with the call of schedule that follows those which serve them |
| RoundRobin.ExitedForGood | src/thread.c:72-119 | a thread that has exited never runs or waits again unless it is created anew, and is a zombie until the next reaping, which removes it |
| ThreadList.ListAddTail | include/list.h:18-31 | the node joins the tail and the ring stays closed both ways |
| ThreadList.ListDel | include/list.h:33-50 | the node leaves the ring, which stays closed both ways |
| ThreadList.FirstRunnable | src/thread.c:110-112 | the first thread of the ring that may run, or the head if none may |
| Scheduler.Scheduler.Create | src/thread.c:52-70 | a new runnable thread waits at the tail of the run queue |
| Scheduler.Scheduler.Schedule | src/thread.c:105-119 | a thread that runs goes to the tail of the run queue, a zombie to that of the zombie queue, and the head of the run queue runs |
| Scheduler.Scheduler.Exit | src/thread.c:223-227 | the current thread becomes the last zombie, is not in the run queue, and its head runs |
| Scheduler.Scheduler.Idle | src/thread.c:72-75 | zombies are reaped, then the head of the run queue runs |
| Scheduler.Scheduler.KillZombies | src/thread.c:77-89 | all zombies, in order, are unlinked and nobody else; none is left |

## Left out

Departures from the code inside what is modelled:

- A failed walk or allocation, where the source goes on with a null pointer (src/mem.c:40, 59; src/mm.c:476, 522), ends the method with a flag; the contract says exactly when that happens.
- Bounds are tested before the element they guard is read (src/mm.c:119-120, 292); the conjunctions have the same value.
- PageAllocator.PageAllocator.FreePages: only frames that start a live block or lie in a free one may be passed, because other arguments have no meaning in the source.
- PageAllocator.PageAllocator.MemReserve: the frames must still be free, as the source would unlink a frame twice otherwise.
- The frame table starts with reference counts of 0, which the source takes from its boot allocator.
- Vm.Vm.MapPages: frames are managed ones, so that entries for device memory are not covered.
- Vm.Vm.CopyPageTable: the destination is blank, as a new root is but for the mailbox window.
- Vm and Slab: the pool has at most 2^19 frames, so that all addresses fit in 64 bits; the source has 2^15.
- Kernel.Kernel.MemAbort: the update of the thread's stack fields (src/mm.c:489, 526-527) is left out.
- Kernel.Kernel.Fork: the area list is copied by AreaList.CopyVma, which is proved on its own; registers, kernel stack and signal state are not modelled.
- Kernel.Kernel.ExecImage: the image comes as whole pages with the bytes behind its end zero; the two areas that __exec creates are AreaList.CreateVma, and its stack allocation is a call of Slab.Kmalloc.
- Kernel.Kernel.Fork and Kernel.Kernel.MemAbort keep the machine invariant only when they do not run out of frames; after that only the invariants of the allocators and of the page tables are promised, since the source goes on through a null pointer.
- SharedPool: the root tables of processes come from the page allocator directly, where the source asks kmalloc for 4096 bytes, which is the same call of alloc_pages.
- Memory is page-wise and word-wise: accesses narrower than 8 bytes, and alignment, are not modelled.
- Scheduler.Scheduler.Create: allocating the stack, the area list and the root table of the new thread (src/thread.c:52-66) is left out; see Kernel.Kernel.Spawn and Slab.Slab.Kmalloc.
- Scheduler.Scheduler.KillZombies: the two kfree calls for each zombie are left out; they are calls of Slab.Slab.Kfree.
- Scheduler.Scheduler.Schedule: with an empty run queue the processor idles, where the source switches to the queue's own head, which has no address space.
- The list field and the thread around it are one object, so container_of is not modelled; poisoned pointers are null.

Not modelled at all:

- Hardware and assembly, interrupts, drivers, TLB maintenance; switch_to, switch_ttbr0 and get_current are the assignments to the current thread.
- The mailbox window mapped into every process (src/thread.c:41, 58, 188): its frames lie outside the managed ones, so that copy_page_table counts references outside the frame table, and the tables that Thread builds for it are overwritten in a fork and stay allocated.
- Signals, including the signal stack that is freed while still mapped.
- Reclaiming address spaces: clear_pgd is empty, so tables of dead processes stay, and no absence of leaks is claimed.
- The device-tree walk that finds the reservations; they come as ranges.
- src/pgtable.c, the FAT32 driver, the virtual file system, the shell, printf, timers and user programs.

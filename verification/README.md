# gOS: a verified model of the kernel's core

This Dafny project models the parts of the gOS kernel in which something can go subtly wrong: its
memory managers, data structures, scheduler, lock-free buffer, sorting, checksums and number
formatting. `dafny verify dfyconfig.toml` checks all of it.

Each module models one source file or runs of its calls. Code that works in place is modelled in
place: classes with the source's fields, arrays for buffers, loops with invariants. Each such method
is proved against a specification that does not mention the code: a sequence, a finite map, a
multiset, a polynomial, a queue. Address arithmetic and 32- or 64-bit wrap-around are written out where they matter.

| file | source | the main result |
|---|---|---|
| `RbTree.dfy` | `lib/rbtree.c` | insertion keeps a red-black tree and inserts at the upper bound; logarithmic height; search and walks |
| `Pmm.dfy`, `PmmRuns.dfy` | `mm/pmm/pmm.c` | the bitmap allocator, its skip-ahead search and its hint; ownership of pages over every run |
| `PageTables.dfy`, `Vmm.dfy` | `mm/vmm/vmm.c`, `mm/vmm/vmm_map.c` | four-level page tables, edited through their own direct map, refine a finite map over every run that does not go astray in it; which runs do not; when a TLB entry can be stale |
| `Heap.dfy`, `HeapPages.dfy`, `HeapRuns.dfy` | `mm/heap/heap.c` | free and live blocks tile the heap; live payloads are disjoint and keep their bytes; into which pages the heap can grow, and what happens otherwise |
| `Boot.dfy` | `kernel/kmain.c` | where start-up puts the page tables, for which kernel images `heap_init` works with that, and what it does for all others |
| `Tmpfs.dfy` | `fs/tmpfs/tmpfs.c` | files refine byte sequences through `krealloc` |
| `Slab.dfy`, `SlabRuns.dfy`, `SlabPages.dfy` | `lib/slab.c` | slots are partitioned into live objects and the in-object free list; live objects keep their contents over every run; no page is taken while a slot is free; which objects a growing heap displaces |
| `Ring.dfy` | `include/gOS/ring_buffer.h`, `drivers/keyboard/keyboard.c` | first in, first out under every interleaving of producer and consumer steps |
| `Scheduler.dfy` | `proc/scheduler.c`, `proc/proc.c` | the ready queue over every run, wake-ups, round-robin fairness, exits that are final |
| `Sort.dfy`, `Qsort.dfy` | `lib/sort.c` | heapsort and binary search over a flat byte array; quicksort on a pair |
| `Crc32.dfy` | `lib/crc32.c` | the table-driven CRC is the frame check sequence of section 3.2.9 of IEEE Std 802.3-2018 |
| `Checksum.dfy` | `net/checksum.c`, `net/ip.c` | the Internet checksum of RFC 1071 |
| `Itoa.dfy`, `Strtol.dfy` | `lib/itoa.c`, `lib/strtol.c` | what is printed is the numeral of the number, of which there is only one; printing and parsing are inverse in every base |
| `Vsnprintf.dfy` | `lib/vsnprintf.c` | bounded formatting writes a prefix of the unbounded rendering, which is what the format's characters and directives stand for |
| `Arith.dfy`, `Common.dfy` | | division, remainders and powers of two; sequences without repetition |

The memory layers compose: the page tables take their frames from the page allocator, the heap maps
its pages through the page tables, the file system keeps its files in heap blocks. One difficulty runs
through that chain. The kernel reaches page tables, and its own code and data, at KERNEL_VBASE plus
their address, and the tables themselves say where that leads. An access that ends up in another frame
than the one meant is said to go astray. So the statements about the page tables have two halves: a
call, or a run, that ends without going astray has done what a finite map does; and a call does not go
astray if the tables it walks are within reach of the direct map. `Vmm.Mmu.MapWatched`,
`UnmapWatched`, `ProtectPage` and `SafeExactly` say exactly which calls keep it so, and which cost the
kernel its own image. The heap lies inside the direct map, and every page it grows by takes a frame out
of it. Its pages are called open to it (`HeapPages.Open`) if none hides a table that a later one needs
and none shows the kernel's image. That is exactly when growing works (`HeapPages.MapPages`), it
concerns only calls that grow the heap, and `Boot.OpenAtBoot` and `Boot.GrowthAtBoot` say for which
kernel images it holds.

## How the code is represented

- Pointers are addresses (`nat`, 0 for NULL) in the memory managers, table slots in the scheduler,
  object references in the red-black tree, and indices into a character sequence in the parsers.
- A C array of structs is an array of values; in-band headers and in-object links are maps from
  addresses, and every write to them is shown to miss the live payloads.
- The red-black tree keeps a ghost copy of its links, tied to the real fields after every method, so
  that the shape lemmas are about values.
- The ring's two parties are cut into three steps each (check, access, publish), and every
  interleaving of those steps is a run. The keyboard interrupt and its reader use the same steps with
  a capacity of 256.
- Physical memory is a map from frames to their 512 words. Every read and write of a table goes
  through the translation that is in force: that of the boot tables, which map the first GiB at
  KERNEL_VBASE (`boot/boot.asm:119-158`), until CR3 is loaded, and then a walk of the tables. The
  access is carried out on whatever frame that gives; `Mmu.astray` only records that it was not the
  frame meant, and no branch of the modelled page-table code looks at it.
- The kernel's image is the set of frames from 1 MiB to `_kernel_end` (`linker/linker.ld:20-91`), boot
  code included. It holds the page bitmap and the pointer to the PML4, so that no other frame's
  contents matter to the page allocator.
- The TLB is a ghost map that the processor may fill from a walk of the loaded tables after any single
  store, so also between linking a new table and clearing it. `Vmm.Mmu.Valid` has every cached
  translation of a mapped page current; `Calm` adds that nothing else is cached and that no free frame
  holds a present entry.
- The page-table methods take ghost parameters that say what their caller knows: that nothing has gone
  astray so far (`good`), that part of the path is not mapped (`dark`), or that a table of the path is
  hidden by a frame which no table occupies (`shadow`). The code is the same in every case.
- Comparators are arbitrary functions required to be total preorders.
- A call that does not return is an outcome of its own: `Halted` for want of a page, `Faulted` for an
  address nothing is mapped at, `Lost` when the kernel's image is no longer in its place or has been
  written to. The contract says that the page allocator is exhausted after a halt. A NULL from
  `heap_extend` is neither: no call of the heap makes a page table, so none halts there. `kmalloc` also
  ends with `Lost` when growing the heap has gone astray, since its blocks then lie on pages that are
  not the heap's.

## What turned out not to hold

- `vmm_map_page` and `vmm_unmap_page` are right only while the direct map shows the tables, and the
  kernel lasts only while it shows the kernel. Mapping the PML4's own direct-map page elsewhere makes
  the next call read its PML4 from there (`PageTables.MapHidesRoot`); unmapping that of a frame of the
  image is the end of the kernel (`Vmm.Mmu.UnmapPage`). `PageTables.SparedExactly` and
  `Vmm.Mmu.SafeExactly` have the exact condition, and `Vmm.Mmu.ProtectPage` the one for
  `vmm_protect_page`, which unmaps before it maps.
- A new table is linked before it is cleared. A present entry left in its frame can be cached for a
  page that is not mapped, where invalidating the page being mapped leaves it
  (`PageTables.StaleEntryShows`); this cannot happen exactly if the frame's contents, read as a table,
  map nothing (`PageTables.LinkedSealed`).
- Heap page i covers the direct-map page of frame 0x400 + i, so `heap_init` works exactly if the first
  frame behind the kernel image is below 0x1F9 or from 0x3FC to 0x3FF (`Boot.OpenAtBoot`,
  `Boot.Start`). The page bitmap alone is 2 MiB of the image, which puts that frame at 0x300 or above.
  From 0x300 to 0x3FB, and at 0x400, `heap_init` hides a page table of its own before it is done; the
  walks for the remaining pages then go through the frame that hides it, those pages stay as they were,
  and the heap is left with a page table in it (`Boot.StartHeap`). Above 0x400 its first page
  replaces a page of the kernel. From 0x3FC to 0x3FF it works, but the heap can grow by at most three pages after that
  (`Boot.GrowthAtBoot`). Growth of any size works exactly below 0x17A (`Boot.ClearAtBoot`).
- A growing heap takes over the direct-map pages of slabs in the same window, live objects included
  (`SlabPages.ObjectStays`).
- The limit test of `kmalloc` wraps: a request of about 2 GiB or more passes it, takes every page
  there is and fails (`Heap.GuardFacts`, `Heap.KernelHeap.GrowFor`).
- `tmpfs_vfs_read` copies past the end of the file exactly if offset+count wraps with the offset inside
  the file (`Tmpfs.ReadFacts`), and the doubling loop of `tmpfs_vfs_write` ends exactly for requests up
  to 2^63 bytes (`Tmpfs.DoublingEnds`).
- `pmm_alloc_pages` can leave free pages below the hint (`Pmm.HideFreePage`);
  `Pmm.HintSurvivesRun` says exactly when it does not.
- The page allocator uses a page count as an index limit, so it never hands out the last 256 of the
  pages it manages; `Pmm.Allocator.AllocPage` states the limit as the code has it.
- A yield by the idle process while it is marked running empties the ready queue
  (`Scheduler.YieldKeepsInvIff`, with a reachable example in `Scheduler.IdleYieldReachable`). Short of
  such a yield, idle is never switched away from once it has run (`Scheduler.IdleKeepsRunning`).
- `vmm_protect_page` refuses a page whose physical address reads as 0. Flags above bit 11 are masked
  off (`PageTables.LeafEntry`).
- No page is accessible from user mode, whatever flags it is mapped with: the tables above it are made
  without the user bit (`PageTables.GrantedExactly`).
- `strtoul` with base 16 does not take the 0x prefix that `strtol` takes; it reads the 0 and stops
  (`Strtol.UnsignedStopsAtPrefix`).
- `strtol` cannot read back LLONG_MIN, whose magnitude overflows its signed accumulator
  (`Strtol.LeastOverflows`); `Strtol.SignedRoundTrip` shows that it is the only such value.
- `qsort` does not return on a strictly increasing pair, and returns on every other pair
  (`Qsort.PairEnds`).
- The documentation of `vsnprintf` lists `%X` beside `%x`; the code prints lower-case digits for both,
  and so does the model.

## Model

| member | source | states |
|---|---|---|
| RbTree.Tree.constructor | lib/rbtree.c:53-56 | an initialised tree is a valid red-black tree with an empty in-order sequence |
| RbTree.Tree.RotateLeft | lib/rbtree.c:21-35 | the pointer writes are exactly the abstract left turn of a node and its right child, and the root moves only if it was that node |
| RbTree.Tree.RotateRight | lib/rbtree.c:37-51 | the mirror image of the left rotation |
| RbTree.RotationKeepsShape | lib/rbtree.c:21-51 | either rotation of a well-formed tree leaves parent and child links in agreement, acyclic, with the same in-order sequence |
| RbTree.Tree.SetColor | lib/rbtree.c:13-19 | sets the colour of one node and changes nothing else |
| RbTree.GrandparentIsBlack | lib/rbtree.c:87-88 | a red node with a red parent has a black grandparent, so the fix-up never follows a null grandparent |
| RbTree.RecolorKeepsInv | lib/rbtree.c:90-94 | with a red uncle, recolouring keeps black heights and moves the only red-red violation up to the grandparent |
| RbTree.InnerRotationKeepsInv | lib/rbtree.c:96-99 | turning an inner grandchild keeps everything but the one violation, which is now at the old parent |
| RbTree.InnerBecomesOuter | lib/rbtree.c:96-102 | after the inner turn the violation is of the outer kind, under the same black uncle |
| RbTree.OuterRotationFinishes | lib/rbtree.c:100-102 | recolouring and turning the grandparent restores all red-black properties |
| RbTree.BlackenRootFinishes | lib/rbtree.c:122 | blackening the root removes the last possible violation and keeps black heights equal |
| RbTree.Tree.FixStep | lib/rbtree.c:87-121 | one round of the fix-up loop ends the violation or moves it to a strictly larger subtree |
| RbTree.Tree.FixUp | lib/rbtree.c:86-122 | the loop terminates in a red-black tree with the same nodes |
| RbTree.Tree.FindParent | lib/rbtree.c:59-73 | the descent ends at a free child slot whose place is the upper bound of the key in the in-order sequence |
| RbTree.AttachKeepsInv | lib/rbtree.c:75-84 | hanging a red leaf in that slot keeps the shape and breaks at most the red rule at the leaf |
| RbTree.Tree.Attach | lib/rbtree.c:75-84 | the writes that hang the leaf, and the in-order sequence with the node inserted at its place |
| RbTree.InsertKeepsSorted | lib/rbtree.c:66-82 | inserting at the upper bound keeps a sequence sorted, duplicates included |
| RbTree.Tree.Insert | lib/rbtree.c:58-123 | links agree and are acyclic, the root is black, no red node has a red child, all paths have equal black height, the count grows by one, and the in-order sequence gains the node right after all elements not greater than it |
| RbTree.Tree.InsertAll | lib/rbtree.c:58-123 | any sequence of insertions into an empty tree yields a valid tree whose in-order sequence is a sorted permutation of the nodes |
| RbTree.OrderIsInOrder | lib/rbtree.c:141-165 | the ghost sequence is the in-order traversal computed from the child links |
| RbTree.BlackHeightIsUniform | lib/rbtree.c:86-123 | every path from a node to a missing child has the same number of black nodes |
| RbTree.HeightByBlackHeight | lib/rbtree.c:86-123 | a node's height is at most twice its black height, plus one if it is red |
| RbTree.HeightIsLogarithmic | lib/rbtree.c:58-123 | a tree of n nodes has height h with 2^h <= (n+1)^2 |
| RbTree.Tree.Search | lib/rbtree.c:131-139 | returns a node comparing equal exactly if there is one, duplicates included, in s steps with 2^s <= (n+1)^2 |
| RbTree.Tree.SearchLoop | lib/rbtree.c:131-139 | the search loop, in at most as many steps as the tree is high |
| RbTree.Tree.Min | lib/rbtree.c:141-145 | the first node of the in-order sequence, or null |
| RbTree.Tree.Max | lib/rbtree.c:147-151 | the last node of the in-order sequence, or null |
| RbTree.Tree.Next | lib/rbtree.c:153-165 | the in-order successor, or null at the end; both climbs terminate |
| RbTree.Tree.Prev | lib/rbtree.c:167-179 | the in-order predecessor, or null at the start |
| RbTree.Tree.Walk | lib/rbtree.c:141-179 | starting at rb_min and repeating rb_next visits every node once, in order, then gives null, and rb_prev undoes each step |
| Pmm.MaskLaws | mm/pmm/pmm.c:18-28 | setting or clearing a bit of a byte changes that bit and no other |
| Pmm.Bitmap.SetBit | mm/pmm/pmm.c:18-20 | marks one page used |
| Pmm.Bitmap.ClearBit | mm/pmm/pmm.c:22-24 | marks one page free |
| Pmm.Bitmap.TestBit | mm/pmm/pmm.c:26-28 | reads whether a page is used |
| Pmm.Allocator.constructor | mm/pmm/pmm.c:34-62 | exactly the pages from the end of the kernel image to 256 MiB are free, the counter is the number of used managed pages, and no free page lies below the hint |
| Pmm.Allocator.MarkUsed | mm/pmm/pmm.c:64-72 | marks the range used and counts only pages that were free |
| Pmm.Allocator.MarkFree | mm/pmm/pmm.c:74-85 | marks the range free, and lowers the hint to the lowest page freed, if that is below it |
| Pmm.Allocator.AllocPage | mm/pmm/pmm.c:87-98 | the lowest free page at or above the hint, null exactly if there is none below the limit; while no free page lies below the hint it is the lowest free page of all |
| Pmm.Allocator.ScanRun | mm/pmm/pmm.c:107-113 | finds a used page in a candidate run exactly if there is one |
| Pmm.Allocator.AllocPages | mm/pmm/pmm.c:100-125 | the skip-ahead search returns the lowest fully free run at or above the hint and below the total, and null exactly if none exists |
| Pmm.Allocator.FreePage | mm/pmm/pmm.c:127-137 | frees one managed page, keeps the counter exact and the hint honest |
| Pmm.Allocator.FreePages | mm/pmm/pmm.c:139-144 | frees a run of managed pages, or nothing for null, and lowers the hint to the lowest page freed, if that is below it |
| Pmm.HintSurvivesRun | mm/pmm/pmm.c:105-121 | a multi-page allocation leaves no free page below the hint exactly if the lowest free page already begins a run of the requested length |
| Pmm.HideFreePage | mm/pmm/pmm.c:34-137 | a run of calls from start-up after which a free page lies below the hint, for every kernel image that leaves four pages: two pages allocated, the first given back, a pair allocated |
| PmmRuns.Execute | mm/pmm/pmm.c:100-144 | after any run of pmm_alloc_pages and pmm_free_pages the runs a client holds are disjoint and were free at the start, exactly they are taken besides what was, and the used counter has grown by their pages; once nothing is held the bitmap is what it was |
| PageTables.IndexIsDigit | mm/vmm/vmm.c:12-16 | the table index at a level is that base-512 digit of the 36-bit page number |
| PageTables.IndexAt | mm/vmm/vmm.c:61-64 | the four indices of an address spell out its page number, and what is left of it above an index names the table |
| PageTables.LeafEntry | mm/vmm/vmm.c:73 | the entry written for a page is present, with the frame address and 12 flag bits |
| PageTables.GrantedExactly | mm/vmm/vmm.c:18-75 | the processor lets a mapped page be written exactly if its leaf entry is writable, since every table above it is; no page can be accessed from user mode, whatever flags it was mapped with |
| PageTables.TablesTranslate | mm/vmm/vmm.c:36-75 | the processor's own walk of the tables computes exactly the finite map: it finds every mapped page where the map says, and no other |
| PageTables.HangKeepsTables | mm/vmm/vmm.c:28-32 | a frame that has been linked and cleared makes the tables a larger tree of pairwise distinct frames |
| PageTables.HangKeepsPages | mm/vmm/vmm.c:28-32 | linking and clearing a frame changes no translation |
| PageTables.ChainGrows | mm/vmm/vmm.c:28-32 | frames that a walk passes through outside the tables form a chain, to which linking and clearing one more frame adds that frame |
| PageTables.ChainStays | mm/vmm/vmm.c:73 | writing the last frame of a complete chain leaves it a chain for every page of the same page table |
| PageTables.LinkedWalk | mm/vmm/vmm.c:28-29 | from the moment a frame is linked, whatever it holds, the processor walks into it for the pages under the new table and as before for all others |
| PageTables.LinkedTranslates | mm/vmm/vmm.c:28-32 | while the frame is being cleared every mapped page still translates as it should |
| PageTables.LinkedSealed | mm/vmm/vmm.c:28-32 | while the frame is being cleared the processor finds no unmapped page exactly if the frame's contents, read as a table, map none; so it is if they hold no present entry |
| PageTables.StaleEntryShows | mm/vmm/vmm.c:28-32 | of a page table every present entry left in the frame shows: the processor can cache it for a page that is not mapped, and invalidating another page leaves it cached |
| PageTables.StoreUpdatesPages | mm/vmm/vmm.c:73 | writing a leaf entry changes the translation of its own page and of no other |
| PageTables.MappedPointwise | mm/vmm/vmm_map.c:9-13 | which pages a range call maps, and to what, without reference to the loop |
| PageTables.UnmappedPointwise | mm/vmm/vmm_map.c:15-19 | which pages a range call unmaps, without reference to the loop |
| PageTables.DirectPageAt | mm/vmm/vmm.c:20 | the page at which the kernel addresses frame f is that of KERNEL_VBASE + 4096 f, in 64-bit arithmetic |
| PageTables.SparedExactly | mm/vmm/vmm.c:58-85 | mapping or unmapping a page leaves a set of frames within reach of the direct map exactly if the page is the direct-map page of none of them, or is mapped to that very frame |
| PageTables.SparesFrame | mm/vmm/vmm.c:58-85 | the direct-map page of frame f belongs to no other frame: unmapping it, or mapping it elsewhere, spares a set of frames exactly if f is not among them |
| PageTables.MapHidesRoot | mm/vmm/vmm.c:58-75 | mapping the PML4's own direct-map page elsewhere makes the kernel read its PML4 from that other frame |
| PageTables.MappingTwice | mm/vmm/vmm.c:46-49 | vmm_init's two range calls map the first frames at 0 and at KERNEL_VBASE, present and writable, and nothing else |
| PageTables.TwiceReaches | mm/vmm/vmm.c:46-52 | such tables are their own direct map of those frames |
| Vmm.Mmu.constructor | mm/vmm/vmm.c:10 | before initialisation there is no root table, nothing is mapped, and the kernel's image is in its place |
| Vmm.Mmu.RouteIsMapped | mm/vmm/vmm.c:20 | an access to table frame f goes to frame f exactly if the tables in force map its direct-map page there; otherwise to the frame they map it to, or it faults |
| Vmm.Mmu.ImageIsMapped | linker/linker.ld:42-91 | the kernel's image is where the kernel addresses it exactly if the tables in force map every direct-map page of it to its own frame |
| Vmm.Mmu.Load | mm/vmm/vmm.c:107-114 | reading a table word through the direct map: it is read in the frame that the tables in force show there, which is noted as going astray if it is not the frame meant; nothing mapped is a fault, and with the image out of its place the kernel is lost |
| Vmm.Mmu.Write | mm/vmm/vmm.c:31 | writing one likewise; a write that lands in the kernel's image loses the kernel, and any other changes one word of that frame |
| Vmm.Mmu.HardwareFill | mm/vmm/vmm.c:117-124 | whatever the processor caches of the tables, cached translations of mapped pages stay current, and nothing else is cached if the tables show nothing else |
| Vmm.Mmu.GetPte | mm/vmm/vmm.c:98-115 | a walk that does not go astray ends at the page's slot in the table its page number names, and fails exactly if that table does not exist; it does not go astray, nor fault, while the page's path is within reach |
| Vmm.Mmu.IsMapped | mm/vmm/vmm.c:87-90 | unless it goes astray, true exactly for the pages of the finite map; it does not while the path is within reach |
| Vmm.Mmu.GetPhys | mm/vmm/vmm.c:92-96 | unless it goes astray, the mapped frame with the page offset, 0 for unmapped pages; it does not while the path is within reach |
| Vmm.Mmu.GetOrCreate | mm/vmm/vmm.c:18-34 | unless it goes astray, the existing child table or a new empty one in a free frame, with no translation changed; halts only if the page allocator is exhausted; does not go astray nor fault if the table, and for a new child the free frames, are within reach; faults if the table is not mapped; carried out on a frame that is no table, it reads and links there and leaves all tables alone |
| Vmm.Mmu.Link | mm/vmm/vmm.c:28 | after the link, with any hardware fill, cached translations of mapped pages are current, and nothing else is cached if the frame held no present entry |
| Vmm.Mmu.ClearTable | mm/vmm/vmm.c:29-32 | the clearing loop, with a hardware fill after every store, keeps that up and ends with an empty table |
| Vmm.Mmu.NewTable | mm/vmm/vmm.c:28-33 | linking and clearing adds exactly one table; cached translations of mapped pages stay current throughout, and nothing stale is cached if the frame held no present entry |
| Vmm.Mmu.Descend | mm/vmm/vmm.c:66-71 | the three-level descent: unless it goes astray it reaches the page table of the page number, creating what is missing; it faults at the first table whose direct-map page is not mapped; once a table is hidden by another frame it goes along a chain of frames that are no tables |
| Vmm.Mmu.WriteLeaf | mm/vmm/vmm.c:73-74 | after the write and the invalidation no cached translation of a mapped page is stale, whatever the hardware cached in between, and none of an unmapped page is new; the kernel is lost exactly if its image is no longer in place |
| Vmm.Mmu.MapPage | mm/vmm/vmm.c:58-75 | unless it goes astray or faults, the finite map gains exactly this page, tables are only added, in frames that were free, and the kernel is lost exactly if the page is the direct-map page of its image and is mapped elsewhere; it neither goes astray nor faults if the path is within reach, and the free frames too unless the page table exists; where the table exists, only then; halts only if the page allocator is exhausted; without a root nothing happens |
| Vmm.Mmu.MapAlong | mm/vmm/vmm.c:58-75 | the same body once a table of the path is hidden by a frame that is no table: it goes astray, changes no translation and no table, and writes only along a chain of frames that nothing else uses |
| Vmm.Mmu.UnmapPage | mm/vmm/vmm.c:77-85 | unless it goes astray or faults, the finite map loses exactly this page, and the kernel is lost exactly if that is the direct-map page of its image; it does neither while the path is within reach |
| Vmm.Mmu.MapWatched | mm/vmm/vmm.c:58-75 | vmm_map_page leaves every table, every frame that may become one and the kernel's image within reach exactly if its page is the direct-map page of none of them or is mapped to that very frame |
| Vmm.Mmu.UnmapWatched | mm/vmm/vmm.c:77-85 | vmm_unmap_page leaves them within reach exactly if its page is the direct-map page of none of them |
| Vmm.Mmu.MapRange | mm/vmm/vmm_map.c:9-13 | if it ends without going astray, the finite map has gained the pages of the range, with 64-bit wrap-around of the addresses; it does not go astray, and stops early only for want of a frame, if it spares the direct map of tables, free frames and the kernel's image |
| Vmm.Mmu.UnmapRange | mm/vmm/vmm_map.c:15-19 | if it ends without going astray, the finite map has lost the pages of the range; it does so if it spares the direct map of tables, free frames and the kernel's image |
| Vmm.Mmu.PathWithout | mm/vmm/vmm_map.c:58-59 | with a page unmapped, its own path stays within reach exactly if the page is not the direct-map page of a table on that path |
| Vmm.Mmu.ProtectPage | mm/vmm/vmm_map.c:55-61 | if it ends without going astray, it has failed exactly if the page is unmapped or its address reads as 0, and otherwise kept the frame, replaced the flags and created no table; with the path within reach it does not go astray, and between unmapping and mapping it loses the kernel exactly on a page of its image and faults exactly on another page that maps its own path |
| Vmm.Mmu.Perform | mm/vmm/vmm.c:58-115 | one call, if it ends without going astray, does what the finite map does; it does not go astray, and stops early only for want of a frame, if the tables it walks are within reach when it is made and it leaves the kernel's image alone |
| Vmm.Mmu.Execute | mm/vmm/vmm.c:58-115 | every run of map, unmap, range and protect calls that ends without going astray computes what a finite map from page numbers does, with tables that are distinct used frames and the kernel in its place; cached translations of mapped pages are always current, and if free frames hold no present entry nothing else is ever cached; a run that spares the direct map of tables, free frames and the kernel's image does not go astray |
| Vmm.Mmu.SafeExactly | mm/vmm/vmm.c:58-85 | a call on the direct-map page of frame f is safe exactly if f is no table, may not become one and does not belong to the kernel's image, or is what the page is mapped to |
| Vmm.Mmu.NewRoot | mm/vmm/vmm.c:40-43 | the PML4 is an empty table in the lowest free frame; if there is none the first table below it halts |
| Vmm.Mmu.MapTwice | mm/vmm/vmm.c:46-49 | the two range calls end with the first frames mapped twice, present and writable and with no other flag, or halt with the page allocator exhausted |
| Vmm.Mmu.SwitchPml4 | mm/vmm/vmm.c:52 | loading the new tables empties the cache and keeps every table, every free frame and the kernel's image within reach |
| Vmm.Mmu.Init | mm/vmm/vmm.c:36-56 | halts only if the page allocator is exhausted; otherwise the first GiB is mapped at 0 and at KERNEL_VBASE, present and writable, and nothing else; the tables are loaded with nothing cached, and every table, every free frame and the kernel's image is within reach; with frames handed out in order the tables lie where BootTables says |
| Boot.TablesInARow | mm/vmm/vmm.c:36-50 | the tables that vmm_init makes fill 1029 frames in a row, each at a known distance from the PML4 |
| Boot.StartPaging | kernel/kmain.c:54-55 | after pmm_init and vmm_init the tables lie in a row from the first frame behind the kernel image on, all within reach, and the free frames behind them; the image is the frames from 1 MiB to the kernel's end |
| Boot.PavedAtBoot | mm/vmm/vmm.c:49 | the page table of every page the heap could come to have exists |
| Boot.ClearAtBoot | kernel/kmain.c:54-56 | however far the heap grows, no page of it hides a table that a later page needs exactly if the first frame behind the kernel image is below 0x17A |
| Boot.AheadAtBoot | mm/heap/heap.c:69 | no page of heap_init's 512 hides a table that a later one needs exactly if none of the four tables they need is among the frames they hide before the last of them |
| Boot.OpenAtBoot | mm/heap/heap.c:61-74 | heap_init's 512 pages neither hide a table that a later one needs nor show the kernel's image exactly if the image ends below frame 0x1F9, or at 0x3FC to 0x3FF |
| Boot.HiddenFirst | mm/heap/heap.c:69 | for every other image that ends at frame 0x400 or below, which table heap_init hides first and by which page; the next page shows another table |
| Boot.GrowthAtBoot | mm/pmm/pmm.c:10-13 | an image that holds the 2 MiB page bitmap ends at 0x300 or above; if heap_init works there, the heap can grow by exactly as many pages as the image ends above 0x3FC, at most three, before it hides a table it needs |
| Boot.HiddenAtBoot | mm/heap/heap.c:69 | heap_init takes some table out of the direct map exactly if the PML4 is below frame 0x600 |
| Boot.LeftIsNotOwn | mm/heap/heap.c:69 | a heap page that heap_init could not map still shows the page table it showed |
| Boot.StartHeap | kernel/kmain.c:56 | heap_init after vmm_init: laid out exactly if the image fits; otherwise lost, or astray with a page table in the heap |
| Boot.Start | kernel/kmain.c:54-56 | start-up with any image: heap_init lays out 2 MiB of pages of its own exactly if the image ends below frame 0x1F9 or at 0x3FC to 0x3FF, and then fails only for want of pages; an image that ends above 0x400 is lost; if free frames hold no present entries, heap_init with any other image comes to its end with a page table in the middle of the heap |
| HeapPages.HeapPageIsDirect | mm/heap/heap.c:64 | heap page i is the direct-map page of frame 0x400 + i |
| HeapPages.SpentOneMore | mm/heap/heap.c:36 | each new heap page takes exactly one frame, one that was free, from the page allocator |
| HeapPages.WindowHides | mm/heap/heap.c:34-40 | mapping heap pages to other frames leaves a set of frames within reach exactly if none of them lies in the window those pages show |
| HeapPages.NextReached | mm/heap/heap.c:38-39 | within a run, the next page's tables are within reach exactly if they were to begin with and no page of the run has hidden them |
| HeapPages.GoneStarts | mm/heap/heap.c:38-39 | mapping the page that shows a table of the run to a blank frame makes the next page's walk go into that frame instead |
| HeapPages.ExtendHides | mm/heap/heap.c:34-40 | new heap pages leave every table within reach exactly if none lies in the window they show |
| HeapPages.MapFrame | mm/heap/heap.c:38-39 | a page of the run, whose table exists, is mapped without needing a table exactly if its tables have not been hidden and it does not show the kernel's image |
| HeapPages.MapPages | mm/heap/heap.c:34-44 | if the loop ends without going astray, every page is mapped, present and writable, to a frame of its own that was free, no other frame is taken, no page had hidden a table that a later one needs and none took the place of the kernel's image; if that is so beforehand it does end, stopping early only with the page allocator exhausted; a first page that shows the kernel's image loses the kernel; a page that hides a table which the next page needs makes the loop go astray and leaves all pages behind it as they were |
| Heap.TiledExactly | mm/heap/heap.c:61-141 | every address of the heap lies in exactly one block |
| Heap.PayloadsDisjoint | mm/heap/heap.c:86-141 | live payloads are 16-aligned and pairwise disjoint |
| Heap.KernelHeap.Init | mm/heap/heap.c:61-84 | if it returns without going astray, the heap is one free block of 2 MiB on pages of its own; it does, or halts with the page allocator exhausted, exactly if its 512 pages are open to it: none hides a table that a later one needs or shows the kernel's image; a page bound to hide a table that the next one needs makes it go astray |
| Heap.KernelHeap.Extend | mm/heap/heap.c:34-44 | unless it goes astray, maps fresh distinct frames behind the heap and moves its end, or fails with the end unchanged and the page allocator exhausted; it does not go astray if the new pages are open to it, and succeeds only if they are; all tables stay within reach exactly if none lies in the window mapped |
| Heap.KernelHeap.FindFit | mm/heap/heap.c:91-120 | the first block of the free list that is large enough, null exactly if there is none |
| Heap.TakeSplitKeepsInv | mm/heap/heap.c:99-108 | splitting a free block keeps the tiling and the doubly linked free list, with the rest in the block's place on the list |
| Heap.TakeWholeKeepsInv | mm/heap/heap.c:109-113 | taking a whole block keeps the tiling and unlinks it from the free list |
| Heap.KernelHeap.SplitOff | mm/heap/heap.c:99-108 | the header writes of a split are the abstract split, and touch no live payload |
| Heap.KernelHeap.Unlink | mm/heap/heap.c:109-113 | the header writes that unlink a block, which touch no live payload |
| Heap.KernelHeap.TakeBlock | mm/heap/heap.c:97-117 | one more live block of the requested size or up to 47 bytes more; every other live byte is kept |
| Heap.KernelHeap.Serve | mm/heap/heap.c:91-119 | the first fit is handed out; what is left of it, if that can hold a header and 16 bytes, takes its place on the free list |
| Heap.PagesFacts | mm/heap/heap.c:123 | the heap grows by the fewest pages that hold a header and the request |
| Heap.GuardFacts | mm/heap/heap.c:125 | the 64-bit limit test, in pages, turns a request of n bytes away exactly if a block for it would end beyond the limit but not in the last page below 2^64 or past it |
| Heap.LimitLetsThrough | mm/heap/heap.c:125 | a request of 2 GiB on a fresh heap passes the test and would end past 2^64 |
| Heap.KernelHeap.GrowFor | mm/heap/heap.c:123-139 | if the new pages are open to the heap its end moves by at least a header and n bytes and by less than a page more, unless the request would end beyond the limit or the page allocator runs out; a request that carries the end past 2^64 always runs it out; it grows only into pages that are open |
| Heap.KernelHeap.Allocate | mm/heap/heap.c:86-141 | serves the first fit if there is one, else grows the heap, by less than a page more than a header and the request, and recurses at most once; null exactly if nothing fits and the request would end beyond the limit or the page allocator is exhausted; returns unless it has to grow into pages that are not open to the heap |
| Heap.KernelHeap.KMalloc | mm/heap/heap.c:86-141 | returns unless it has to grow into pages that are not open to the heap; null exactly for size 0 or when nothing fits and a block for the request would end beyond the limit or the page allocator is exhausted; otherwise a block that was not live becomes live with at least the requested size; other live bytes are kept; free and live blocks tile the heap, whose end has moved, if at all, by less than a page more than a header and the rounded request; a request that wraps past the limit test fails with every page taken |
| Heap.KernelHeap.SmoothHasRoom | mm/heap/heap.c:123-139 | if nothing is in the way of any page the heap could come to have, every request returns |
| Heap.KernelHeap.KZalloc | mm/heap/heap.c:143-150 | as kmalloc, and the requested bytes are zero |
| Heap.KernelHeap.Coalesce | mm/heap/heap.c:46-59 | merges with the next and then the previous list neighbour exactly if they touch, and keeps the tiling, the list and all live bytes |
| Heap.MergeKeepsInv | mm/heap/heap.c:46-59 | absorbing a touching list neighbour keeps the tiling and the free list |
| Heap.KernelHeap.KFree | mm/heap/heap.c:173-186 | a live block stops being live, becomes the head of the free list and absorbs the old head if they touch; null and blocks already free change nothing; all other live bytes are kept |
| Heap.KernelHeap.CopyBytes | mm/heap/heap.c:152-171 | the copy loop moves the old payload to the front of the new one and changes no other live byte |
| Heap.KernelHeap.KRealloc | mm/heap/heap.c:152-171 | null acts as kmalloc and size 0 as kfree; a large enough block stays; otherwise the payload moves with its contents to a block that was not live, or null comes back exactly if kmalloc has no room for the new size; a failed call, or one on a block that is not live, changes nothing; returns unless it has to grow the heap into pages that are not open to it |
| Heap.KernelHeap.KSize | mm/heap/heap.c:188-193 | the payload size of a live block, 0 for null or a block that is not live |
| HeapRuns.Execute | mm/heap/heap.c:86-186 | over any run of kmalloc, kzalloc, krealloc and kfree on pointers a client holds, up to the first call, if any, that grows the heap into pages not open to it, the heap is a tiling of free and live blocks and the held payloads are live, 16-aligned and pairwise disjoint; every call returns if nothing is in the way of any page to come |
| Tmpfs.NewCapacity | fs/tmpfs/tmpfs.c:67-69 | the doubling loop ends at the least capacity of 256*2^k that is enough, and passes 256 KiB exactly if the request does |
| Tmpfs.DoublingEnds | fs/tmpfs/tmpfs.c:67-68 | in 64-bit arithmetic the doublings come to reach a request exactly if it is at most 2^63, so the loop ends for those and no others |
| Tmpfs.ReadFacts | fs/tmpfs/tmpfs.c:57-58 | the count to copy stays inside the file exactly if the offset is at or past the end or offset+count does not wrap, and is then the whole request or all that is left of the file |
| Tmpfs.ReadCanOverrun | fs/tmpfs/tmpfs.c:58 | a file of 2 bytes, read at offset 1 for 2^64-1 bytes, is overrun |
| Tmpfs.FileSystem.Read | fs/tmpfs/tmpfs.c:54-61 | stays inside the file exactly if the offset is at or past its end or offset+count does not wrap; then gives the bytes from the offset, cut at the end, and their number; -EINVAL without a file |
| Tmpfs.FileSystem.Enlarge | fs/tmpfs/tmpfs.c:70-73 | krealloc to the new capacity: every file keeps its contents, and -ENOMEM comes back only if the heap has no room for that capacity |
| Tmpfs.FileSystem.Reserve | fs/tmpfs/tmpfs.c:66-74 | -ENOSPC exactly if more than 256 KiB are needed, -ENOMEM only if the heap has no room for the least capacity that is enough; otherwise the file gets that capacity; no file changes its contents, through krealloc's move; returns unless the heap has to grow into pages not open to it |
| Tmpfs.GrowKeepsFiles | fs/tmpfs/tmpfs.c:70-73 | moving one file's block keeps its contents and every other file |
| Tmpfs.FileSystem.Store | fs/tmpfs/tmpfs.c:75-77 | the copied bytes are in place, other bytes of the file and all other files are kept, and the size grows as needed |
| Tmpfs.FileSystem.Write | fs/tmpfs/tmpfs.c:63-79 | -ENOSPC exactly if offset+count > 262144; a failed write changes no file; a successful one writes its data into its own file only, and gives it the least capacity of 256*2^k that is enough, or leaves the one it has if that is; returns unless the heap has to grow into pages not open to it |
| Tmpfs.WrittenSplices | fs/tmpfs/tmpfs.c:63-79 | a write that starts at or before the end splices the data into the file's byte sequence |
| Slab.SlotsApart | lib/slab.c:27-43 | different slots, of one slab or of two, do not overlap |
| Slab.LiveApart | lib/slab.c:81-159 | no two live objects of a cache overlap |
| Slab.CountIsMost | lib/slab.c:27-29 | a slab has as many objects as fit behind the header of its page, and no further one fits |
| Slab.Cache.constructor | lib/slab.c:48-61 | an empty cache whose object size is at least a pointer |
| Slab.Cache.Thread | lib/slab.c:37-43 | the free-list loop links every slot of the page once, in order, ending in null |
| Slab.Cache.CreateSlab | lib/slab.c:20-46 | a slab on one page taken from the page allocator, which no other slab uses, with as many objects behind its 48-byte header as the page holds, all of them free; null, and no page taken, exactly if the page allocator is exhausted |
| Slab.Cache.Init | lib/slab.c:63-68 | one fresh slab on one page, unless the page allocator is exhausted |
| Slab.Cache.Choose | lib/slab.c:84-97 | the first partial slab, else the first fresh one, else a new one, for which alone a page is taken; fails exactly if there is none of these |
| Slab.Cache.Activate | lib/slab.c:94-96 | the first fresh slab moves to the partial list |
| Slab.Cache.PopObject | lib/slab.c:99-103 | the first object of the first partial slab's in-object free list, which is never empty, becomes live |
| Slab.PopKeepsSlab | lib/slab.c:99-103 | popping the free list leaves it a chain of distinct slots that are still free, with used one higher |
| Slab.Cache.Retire | lib/slab.c:105-110 | a slab that has filled up moves from the front of the partial list to the front of the full list |
| Slab.Cache.NoneFree | lib/slab.c:84-93 | with neither a partial nor a fresh slab the live objects are as many as all slabs have slots |
| Slab.RetireKeepsLists | lib/slab.c:105-110 | the move keeps every slab on exactly one list and the full list exactly the full slabs |
| Slab.Cache.Alloc | lib/slab.c:81-113 | null exactly if no slab has a free object and the page allocator is exhausted; otherwise an object that was not live becomes live, the head of the free list of the first partial slab, else one of the first fresh slab; a page is taken only when every slot of every slab is in use; every slab keeps its partition and its list, and what other live objects hold is not touched |
| Slab.Cache.FindOwner | lib/slab.c:118-140 | walks one list to the slab whose range contains the address, null exactly if none does |
| Slab.RangeFindsOwner | lib/slab.c:122-123 | the range test holds of the owner of a live object and of no other slab |
| Slab.Cache.PushObject | lib/slab.c:147-149 | the object returns to the head of its slab's free list and stops being live |
| Slab.PushKeepsSlab | lib/slab.c:147-149 | pushing a slot that is not free leaves the free list a chain of distinct free slots, with used one lower |
| Slab.Cache.Demote | lib/slab.c:151-158 | a slab that is no longer full moves to the front of the partial list |
| Slab.DemoteKeepsLists | lib/slab.c:151-158 | the move keeps every slab on exactly one list, the full list being exactly the full slabs |
| Slab.Cache.Free | lib/slab.c:115-159 | a live object stops being live and no other, and becomes the next one its slab hands out; a slab that was full goes to the front of the partial list, and no page is given back; null and addresses in no slab change nothing; every slab keeps its partition and its list, and what other live objects hold is not touched |
| Slab.NewSlabMissesLive | lib/slab.c:37-43 | threading a new slab's free list touches no live object |
| Slab.TotalUsedIsLive | lib/slab.c:161-172 | the used counters of a list add up to the live objects of its slabs |
| Slab.Cache.Info | lib/slab.c:161-172 | the totals over the three lists are the number of slots, as many as their pages have room for, and the number of live objects |
| SlabRuns.Execute | lib/slab.c:81-159 | after any run of allocations, writes and frees the objects a client holds are live, disjoint and the only ones in use, and each holds the word last written to it; for a client with n variables the cache has taken no page beyond those that n objects need, and the page allocator has given out exactly those |
| SlabPages.SlabStays | lib/slab.c:20-29 | when the heap has grown, a slab's page still shows the slab exactly if it is not one of the pages the heap grew by |
| SlabPages.ObjectStays | lib/slab.c:81-113 | a live object is still at its address exactly if that address does not lie in the pages the heap grew by |
| Ring.TestsAreExact | include/gOS/ring_buffer.h:24-30 | in every reachable state the full test holds exactly with capacity-1 bytes in flight and the empty test exactly with none |
| Ring.StepKeepsInv | include/gOS/ring_buffer.h:38-50 | each single step of either party keeps the invariant, wherever the other is in its code |
| Ring.Run | include/gOS/ring_buffer.h:38-50 | the invariant, and growth of what was pushed and popped, over any interleaving |
| Ring.RunIsFifo | include/gOS/ring_buffer.h:38-50 | for every interleaving, the bytes popped are a prefix of the bytes pushed, at most capacity-1 are in flight, and those are intact in the buffer |
| Ring.AcceptedAreOffered | include/gOS/ring_buffer.h:38-43 | the bytes accepted are a subsequence, in order, of the bytes the producer offered |
| Ring.InterruptStores | drivers/keyboard/keyboard.c:109-113 | an interrupt that runs to its end stores its byte exactly if fewer than capacity-1 wait, wherever the reader was stopped |
| Ring.PopDelivers | drivers/keyboard/keyboard.c:122-129 | a read that runs to its end takes the oldest byte waiting |
| Ring.DrainDelivers | include/gOS/ring_buffer.h:45-50 | reading as often as bytes are waiting delivers everything accepted, in order, nothing lost or repeated |
| Ring.SizeOf | include/gOS/ring_buffer.h:32-36 | the size expression is the distance from tail to head, below the capacity |
| Ring.WindowIsOutstanding | include/gOS/ring_buffer.h:32-36 | in every reachable state the size is the number of bytes in flight and the window from tail to head holds exactly them |
| Ring.RingBuffer.constructor | include/gOS/ring_buffer.h:17-22 | an initialised ring is empty |
| Ring.RingBuffer.Clear | include/gOS/ring_buffer.h:52-55 | a cleared ring is empty |
| Ring.RingBuffer.IsEmpty | include/gOS/ring_buffer.h:24-26 | true exactly if no byte is held |
| Ring.RingBuffer.IsFull | include/gOS/ring_buffer.h:28-30 | true exactly if capacity-1 bytes are held |
| Ring.RingBuffer.Size | include/gOS/ring_buffer.h:32-36 | the number of bytes held |
| Ring.RingBuffer.Push | include/gOS/ring_buffer.h:38-43 | appends the byte to the contents, and refuses exactly if capacity-1 bytes are held |
| Ring.RingBuffer.Pop | include/gOS/ring_buffer.h:45-50 | takes the first byte off the contents, and refuses exactly if there is none |
| Scheduler.InitialInv | proc/proc.c:19-41 | the state after start-up satisfies the invariant, pids included |
| Scheduler.YieldIsTurn | proc/scheduler.c:65-94 | the yield code, with its requeueing and its skip loop, equals one turn of the queue from every reachable state |
| Scheduler.YieldKeepsInv | proc/scheduler.c:65-94 | a yield, also by a process that has just blocked or exited, restores the invariant |
| Scheduler.YieldKeepsInvIff | proc/scheduler.c:65-94 | a yield keeps the invariant exactly if it is not idle that yields while running with processes waiting |
| Scheduler.IdleYieldReachable | proc/scheduler.c:35-43 | a run of create, yield, sleep and tick that ends in the state where such a yield drops a process |
| Scheduler.DueSlotsAre | proc/scheduler.c:49-57 | the wake loop finds exactly the blocked processes whose wake time has come, each once, in table order |
| Scheduler.WakingKeepsInv | proc/scheduler.c:48-57 | waking them keeps the invariant |
| Scheduler.CreateKeepsInv | proc/proc.c:43-92 | creating a process, or failing to, keeps the invariant while pids do not wrap |
| Scheduler.EventKeepsInv | proc/proc.c:43-146 | create, sleep, exit, tick and yield each keep the invariant |
| Scheduler.StopHandsOver | proc/proc.c:126-146 | a process that exits becomes a zombie and one that sleeps blocks until the time it asked for; it leaves the queue, the next one in the queue runs, or idle, and nothing else changes |
| Scheduler.TickTurns | proc/scheduler.c:45-63 | a tick wakes the sleepers whose time has come, queues them at the back in table order and puts the running process, unless it is idle, behind them; the next one runs, and nothing else changes |
| Scheduler.CreateAdds | proc/proc.c:43-92 | proc_create takes the lowest unused slot, gives it the next pid and queues it at the back; without a stack it only uses up the pid |
| Scheduler.ZombieStays | proc/scheduler.c:45-94 | a zombie stays one, is never queued and never runs, over every run |
| Scheduler.ExitIsFinal | proc/proc.c:126-136 | a process that has exited never runs again, whatever the others do |
| Scheduler.RunKeepsInv | proc/scheduler.c:23-94 | every run of those events keeps it |
| Scheduler.QueueIsReadySet | proc/scheduler.c:23-94 | over every run from start-up the ready queue has no duplicates and is exactly the ready processes other than idle plus the running one, which is at its head unless it is idle |
| Scheduler.EventKeepsNames | proc/scheduler.c:45-94 | no event but a creation adds, removes or renames a process |
| Scheduler.RunKeepsPids | proc/proc.c:56-61 | over every run no two processes share a pid, until the pid counter wraps |
| Scheduler.SleeperSleeps | proc/proc.c:138-146 | a sleeper stays blocked and unqueued through any run in which no tick has reached its wake time |
| Scheduler.SleeperWakes | proc/scheduler.c:49-57 | the first tick that reaches a positive wake time queues the sleeper, exactly once |
| Scheduler.YieldsRotate | proc/scheduler.c:65-94 | k yields from a state where a process other than idle runs rotate the queue by k |
| Scheduler.EveryoneRunsOnce | proc/scheduler.c:65-94 | in as many yields as there are queued processes each runs exactly once, in queue order |
| Scheduler.YieldsComeRound | proc/scheduler.c:65-94 | after that many yields the queue is as it was |
| Scheduler.PositionDrops | proc/scheduler.c:59-94 | whatever happens, each tick, yield, sleep or exit moves a waiting process up by one place, and a creation leaves it where it is |
| Scheduler.BoundedWaiting | proc/scheduler.c:59-94 | a process p places back in the queue is the running one after exactly p such events |
| Scheduler.IdleKeepsRunning | proc/scheduler.c:59-62 | once idle runs, no allowed event switches away from it |
| Scheduler.AddLinks | proc/scheduler.c:23-33 | the writes of scheduler_add append to the doubly linked queue |
| Scheduler.RemoveMember | proc/scheduler.c:35-43 | the writes of scheduler_remove take a member out of the doubly linked queue |
| Scheduler.Kernel.constructor | proc/proc.c:19-41 | start-up: idle is ready and current, nothing is queued |
| Scheduler.Kernel.Add | proc/scheduler.c:23-33 | appends a ready process to the queue and keeps its links well formed |
| Scheduler.Kernel.Unlink | proc/scheduler.c:35-43 | the pointer writes of scheduler_remove |
| Scheduler.Kernel.Remove | proc/scheduler.c:35-43 | removes a member from the queue; of a process that is not queued it empties the queue |
| Scheduler.Kernel.Skip | proc/scheduler.c:78-84 | the loop drops processes that are not ready from the front of the queue |
| Scheduler.Kernel.YieldNow | proc/scheduler.c:65-94 | the in-place yield computes the specified one from every state, and leaves stale links exactly if the running process was not queued |
| Scheduler.Kernel.WakeLoop | proc/scheduler.c:48-57 | the in-place wake loop computes the specified waking |
| Scheduler.Kernel.TickNow | proc/scheduler.c:45-63 | the in-place tick computes the specified one and keeps queue links and invariant |
| Scheduler.Kernel.CreateNow | proc/proc.c:43-92 | takes the lowest unused slot; fails exactly without a slot or a stack; otherwise the new process is ready at the tail of the queue |
| Scheduler.Kernel.ExitNow | proc/proc.c:126-136 | the running process becomes a zombie, leaves the queue, and the next one runs; idle does not exit |
| Scheduler.WakeTime | proc/proc.c:143 | the wake time is the timer plus the delay in ticks while 64 bits hold it |
| Scheduler.Kernel.SleepNow | proc/proc.c:138-146 | the running process blocks until the timer plus the delay in ticks, leaves the queue, and the next one runs; idle does not sleep |
| Scheduler.Kernel.Execute | proc/scheduler.c:16-117 | every allowed run, made in place on the table and the linked queue, follows the specification and leaves the queue well linked |
| Sort.SwapBytes | lib/sort.c:6-15 | the byte loop exchanges two blocks and changes no other byte |
| Sort.ExchangeSwaps | lib/sort.c:6-15 | exchanging the blocks of two elements swaps those elements of the array and no others |
| Sort.SiftStep | lib/sort.c:53-63 | moving the greatest child up leaves a heap but for that child's place |
| Sort.SiftDown | lib/sort.c:48-65 | turns a heap from start+1 on into one from start on, rearranging only elements up to end |
| Sort.RootIsGreatest | lib/sort.c:70-75 | the root of a heap is at least every element |
| Sort.TakeGreatest | lib/sort.c:77-81 | moving the root behind the heap extends the ordered part |
| Sort.BuildHeap | lib/sort.c:70-75 | the first loop makes a heap of the elements |
| Sort.SortHeap | lib/sort.c:76-81 | the second loop sorts a heap |
| Sort.HeapSort | lib/sort.c:67-82 | for every total preorder, element size and count up to INT_MAX, the elements end up in nondecreasing order, a permutation of what they were, and the bytes behind the array are untouched |
| Qsort.PairPartition | lib/sort.c:17-35 | partition leaves a strictly increasing pair as it is and returns 2; any other pair it exchanges and returns 1 |
| Qsort.PairEnds | lib/sort.c:37-47 | qsort returns on a pair exactly if its first element is not below its second; otherwise no number of steps is enough, and no index leaves the array |
| Sort.BinarySearch | lib/sort.c:84-96 | on a sorted array returns the index of an element comparing equal to the key, null exactly if there is none |
| Crc32.EntryDivides | lib/crc32.c:5-70 | each of the 256 table entries is its index after eight steps of the bit-serial division |
| Crc32.PolyIsGenerator | lib/crc32.c:5-70 | 0xedb88320 is the generator of section 3.2.9 of IEEE Std 802.3-2018 with its coefficients reflected |
| Crc32.Lookup | lib/crc32.c:76 | a table lookup is eight steps of the register holding the index |
| Crc32.TableStepFeeds | lib/crc32.c:76 | a table step equals feeding the byte's eight bits, lowest first |
| Crc32.TableStep | lib/crc32.c:76 | one round of the loop leaves the register where eight bit-serial steps leave it |
| Crc32.Update | lib/crc32.c:72-79 | the table-driven update equals bit-serial reflected division, for every start value and byte string |
| Crc32.FeedDivides | lib/crc32.c:72-79 | bit-serial division leaves the remainder of long division of the message times x^32, the start value added to its first 32 bits |
| Crc32.Crc | lib/crc32.c:81-83 | the complement of the remainder of the message times x^32, its first 32 bits complemented: the frame check sequence of section 3.2.9 of IEEE Std 802.3-2018 |
| Crc32.UpdateComposes | lib/crc32.c:72-79 | updating over a and then over b equals one update over a+b |
| Crc32.BurstsDetected | lib/crc32.c:72-83 | two messages of equal length that differ only within 32 consecutive bits have different checksums |
| Crc32.ReceiverResidue | lib/crc32.c:72-83 | a message followed by its checksum, lowest bit first, always leaves the register at 0xdebb20e3 |
| Crc32.WordInjective | lib/crc32.c:72-83 | equal bits are equal 32-bit results, so the statements above determine the returned word |
| Checksum.Fold | net/checksum.c:8-13 | the fold terminates with the complement of the one's-complement residue modulo 65535 |
| Checksum.NetChecksum | net/checksum.c:15-26 | the complemented residue of the start value plus the word sum, for any length, in 32-bit arithmetic |
| Checksum.LowByteFirst | net/checksum.c:15-26 | two bytes are a word with the first as low byte, and an odd last byte is a low byte |
| Checksum.IpChecksum | net/ip.c:21-35 | equals net_checksum_add with start value 0, for every input |
| Checksum.NoOverflow | net/checksum.c:15-26 | up to 131072 bytes the 32-bit sum is the true sum |
| Checksum.ChunksCompose | net/checksum.c:15-26 | chunks of even length compose, each starting from the folded sum of those before it |
| Checksum.VerifiesIff | net/checksum.c:8-26 | a message verifies to 0 exactly if its word sum is a positive multiple of 65535 |
| Checksum.StoredVerifies | net/checksum.c:8-26 | storing the checksum in a zeroed aligned field makes the whole verify to 0 |
| Checksum.WrongWordDetected | net/checksum.c:8-26 | only that word verifies at its place, but for 0 and 65535, which count the same |
| Checksum.ByteOrderIndependent | net/checksum.c:15-26 | byte-swapped words give the byte-swapped checksum, odd lengths included (sections 1 and 2 of RFC 1071) |
| Itoa.Reverse | lib/itoa.c:6-12 | the first len characters are reversed in place and the rest is untouched |
| Itoa.PutDigits | lib/itoa.c:35-44 | the digit loop leaves the digits in reverse, '0' for zero |
| Itoa.ToText | lib/itoa.c:14-50 | the buffer holds the sign and digits of the value, highest first, and a terminator, for all 64-bit values including the least; an invalid base gives the empty string |
| Itoa.ItoaInt | lib/itoa.c:52-54 | the text of a 32-bit signed value |
| Itoa.Utoa | lib/itoa.c:56-58 | the text of a 32-bit unsigned value |
| Itoa.Lltoa | lib/itoa.c:60-62 | the text of a 64-bit signed value |
| Itoa.Ulltoa | lib/itoa.c:64-66 | the text of a 64-bit unsigned value, through the signed parameter |
| Itoa.TextFits | lib/itoa.c:14-50 | decimal and hexadecimal text has at most 21 characters, so the formatter's 32-character buffer is enough |
| Strtol.TextIsNumeral | lib/itoa.c:14-50 | the text of a number is its numeral: a minus sign if it is negative, and lower-case digits that stand for it, without leading zeros |
| Strtol.NumeralUnique | lib/itoa.c:35-44 | a number has only one such numeral in a base |
| Strtol.DigitCode | lib/itoa.c:40-41 | the digits are the ASCII characters 0 to 9 and a to z |
| Strtol.DigitValue | lib/strtol.c:6-12 | -1 or a digit below the base; never a digit for the terminator |
| Strtol.DigitExactly | lib/strtol.c:6-12 | a character stands for digit d of a base exactly if it is the character of d, in lower or upper case |
| Strtol.SkipSpace | lib/strtol.c:16 | stops at the first character that is no space |
| Strtol.DetectBase | lib/strtol.c:22-31 | base 0 stands for 16, 8 or 10 by prefix, and the digits start behind the prefix |
| Strtol.ReadUnsigned | lib/strtol.c:69-75 | the digit loop stops at the first non-digit with the value of the digits modulo 2^64 |
| Strtol.ReadSigned | lib/strtol.c:36-42 | the same in signed arithmetic, where no step overflows if the value fits |
| Strtol.PrefixBounded | lib/strtol.c:36-42 | values met on the way are no greater than the last |
| Strtol.Strtoul | lib/strtol.c:52-78 | spaces, sign, prefix, digits: the value modulo 2^64 and where the digits end |
| Strtol.Strtol | lib/strtol.c:14-46 | spaces, sign, prefix, digits: the signed value and where the digits end, for magnitudes a long can hold |
| Strtol.SignedReads | lib/strtol.c:14-46 | strtol reads white space, a sign, a prefix and digits as the C language has it: with base 0 0x announces hexadecimal and a leading 0 octal, with base 16 0x may be given |
| Strtol.UnsignedReads | lib/strtol.c:52-78 | strtoul reads the same, without a minus sign, and without a prefix where base 16 is given |
| Strtol.UnsignedStopsAtPrefix | lib/strtol.c:52-78 | where base 16 and a prefix are given, strtoul reads the 0 of the prefix and stops at its letter |
| Strtol.SpacesAre | lib/ctype.h:6-8 | white space is the blank and the characters from tab to carriage return |
| Strtol.DigitsRead | lib/strtol.c:36-42 | reading the digits of v gives v, in every base |
| Strtol.UnsignedRoundTrip | lib/strtol.c:52-78 | strtoul inverts ulltoa for every 64-bit value and base 2..36 and consumes the whole text |
| Strtol.SignedRoundTrip | lib/strtol.c:14-46 | the text of every 64-bit value is consumed whole and stands for that value, and its magnitude fits the signed accumulator exactly if the value is not LLONG_MIN |
| Strtol.LeastOverflows | lib/strtol.c:34-42 | of LLONG_MIN the digits stand for LLONG_MAX+1, in every base |
| Strtol.PrintAndRead | lib/strtol.c:52-78 | the two calls one after the other, through the buffer: ulltoa then strtoul returns the value |
| Strtol.PrintAndReadSigned | lib/strtol.c:14-46 | lltoa then strtol returns the value |
| Vsnprintf.FieldWidth | lib/vsnprintf.c:26-51 | a field is as long as its content or its width, whichever is longer |
| Vsnprintf.ZeroPaddingKeepsValue | lib/vsnprintf.c:38-45 | zero padding keeps the sign in front, and the padded text still reads as the same number in every base |
| Vsnprintf.Writer.Emit | lib/vsnprintf.c:11-19 | appends one character to the rendering and writes it exactly if room for a terminator remains |
| Vsnprintf.Writer.EmitPadded | lib/vsnprintf.c:26-51 | appends the padded field |
| Vsnprintf.ReadFlags | lib/vsnprintf.c:66-73 | the flags loop reads a run of '-' and '0' |
| Vsnprintf.ReadWidth | lib/vsnprintf.c:75-80 | the width loop reads a run of digits as a decimal number |
| Vsnprintf.ReadModifier | lib/vsnprintf.c:82-95 | l, ll and z select 64 bits; h and hh do not |
| Vsnprintf.DirectiveReads | lib/vsnprintf.c:64-97 | reading a directive's flags, width, length modifier and letter gives the conversion they ask for, the width being the decimal number written there |
| Vsnprintf.DecimalIsValue | lib/vsnprintf.c:76-80 | the width is the decimal number written there |
| Vsnprintf.FieldShows | lib/vsnprintf.c:99-154 | a field shows what its conversion stands for: %d, %i and %u the numeral of the argument in decimal, %x and %X in lower-case hexadecimal, %p that behind 0x, %c a character, %s a string or (null), filled up to the width; %% a percent sign, and any other letter itself behind one |
| Vsnprintf.ShownOnce | lib/vsnprintf.c:99-154 | only one text does |
| Vsnprintf.PiecesOf | lib/vsnprintf.c:59-97 | every format that has its arguments is a sequence of plain characters and directives |
| Vsnprintf.PiecesRender | lib/vsnprintf.c:59-155 | and it renders as what those stand for, one after the other, each directive taking the next argument |
| Vsnprintf.FormatNumber | lib/vsnprintf.c:112-145 | the number's text, in 32 characters |
| Vsnprintf.EmitField | lib/vsnprintf.c:99-154 | appends what the conversion stands for |
| Vsnprintf.EmitFormat | lib/vsnprintf.c:59-155 | the loop emits exactly the rendering of the format and its arguments |
| Vsnprintf.Vsnprintf | lib/vsnprintf.c:53-159 | writes exactly the first min(size-1, L) characters of the unbounded rendering of length L and a terminator, returns that count, and leaves every other character of the buffer alone; nothing for a null buffer or size 0; the rendering is what the plain characters and directives of the format stand for, in order |

## Left out

- Pmm.Allocator.FreePage: only pages of the managed range; freeing others would make the used counter count pages it never counted in.
- Pmm.Allocator.MarkFree: the same pages.
- Pmm.Allocator.FreePages: the same pages.
- Vmm.Mmu.Execute: nothing is promised once an access has gone astray, except along a chain of frames that nothing else uses (`Vmm.Mmu.MapAlong`). Read-only and user bits of the direct-map entries are not looked at.
- Vmm.Mmu.MapRange: the same.
- Vmm.Mmu.UnmapRange: the same.
- Vmm.Mmu.Load: an access at a page that is not mapped faults, even if the processor still caches a translation for it.
- HeapPages.MapPages: of runs that go astray it describes those within one page table, with free frames that hold no present entries; others only as going astray.
- Heap.KernelHeap.Init: the same.
- Heap.KernelHeap.KMalloc: not for sizes within 4144 bytes of 2^64, where the rounding and the header wrap. After a growth that goes astray the outcome is `Lost` and nothing more is said.
- Heap.KernelHeap.KZalloc: the same sizes.
- Heap.KernelHeap.KRealloc: the same sizes, and not for addresses that are no block starts.
- HeapRuns.Execute: the same sizes.
- Heap.KernelHeap.KFree: not for addresses that are no block starts, where the source acts on whatever bytes are there.
- Heap.KernelHeap.KSize: the same addresses.
- Slab.Cache.constructor: object sizes up to 4048 bytes; the cache's own heap block, its name and its destructor hooks are not modelled, and a constructor hook may leave any word in an object.
- Slab.Cache.CreateSlab: slab pages are addressed through the direct map; the cache's own statements are about pages that the heap has not grown over, and `SlabPages.ObjectStays` says which those are.
- Slab.Cache.Free: not for addresses inside a slab that are no live objects.
- Tmpfs.FileSystem.Write: not for offset+count above 2^63, where the doubling loop does not end or the sum wraps; files with unwritten gaps are modelled byte by byte, but only gap-free ones are shown to be byte sequences.
- Scheduler.CreateKeepsInv: not once the 32-bit pid counter has wrapped to 0, after which a process would be taken for idle.
- Sort.HeapSort: counts up to INT_MAX, the count being cast to int.
- Checksum.ChunksCompose: sums that fit 32 bits.
- Strtol.Strtol: not for text whose magnitude exceeds LLONG_MAX, where the signed arithmetic overflows.
- Vsnprintf.Vsnprintf: not for formats that end inside a conversion, arguments of another type than the conversion reads, or widths, strings and sizes beyond INT_MAX.
- Qsort.PairEnds: qsort on a pair only; what partition does to longer arrays is not characterised.
- rb_remove, a stub that only decrements the count.
- proc_destroy, and scheduler_remove of a process whose links are stale.
- The stack, name, exit code and saved registers of a process, and the context switch itself.
- Wrap-around of the 64-bit tick counter.
- tmpfs lookup, directories and the mirrored size in the VFS node.
- Memory ordering weaker than program order in the ring buffer.
- Scancode translation in the keyboard driver.
- TCP and UDP pseudo-header checksums, which mix byte orders.
- base64, hex, string helpers, the FIFO queue, the intrusive list, routing and the ARP table: they would only add easy members.
- Pipes and filtered message receive, and all port, MMIO, boot, ACPI, PCI, USB and network-card code, logging and stubs.

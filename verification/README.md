# The ratos memory manager, verified in Dafny

This project models the memory manager of the ratos kernel and proves what it is for. The bitmap
frame allocator (`src/mem/phys.c`) hands out 4 KiB frames. The page-table code (`src/mem/virt.c`)
builds a four-level radix tree out of such frames, edits it in place, and reaches it through a
direct map that the same tables define. The ACPI mapping services (`src/acpi/kernel_api.c`) map byte
ranges on top of that. A second, smaller part is the symbol lookup of the stack tracer
(`src/debug/stacktrace.c`), which edits the symbol file while it reads it.

Verify with `dafny verify dfyconfig.toml`, or with all `.dfy` files on one command line and
`--resource-limit 2000000`.

## How it is modelled

- A `uint64_t` is an integer below 2^64, and sums that can overflow are wrapped explicitly. `|`, `&` and
  `~` are defined bit by bit in `Bits`, where the kernel's bit idioms are proved equal to the arithmetic
  that the rest of the project uses.
- `Phys.FrameAllocator` holds the bitmap as an array of 64-bit words. Its abstract value is the set of
  used frames.
- `Virt.AddressSpaces` holds physical memory as an array of frames of 512 words. Each table frame has
  a ghost tag: the context it belongs to, its level, and the prefix of the pages below it.
  `PageTables.Sound` says that every link points to a used frame tagged as its child. From this follow
  the tree shape, the separation of contexts, and the freshness of every new table.
- A page is bits 12-47 of an address, as the index macros ignore bits 48-63. `PageTables.Node` and
  `Leaf` are the reference walk. `Hardware.Translate` is the processor's own walk, after section 4.5 of
  the Intel SDM, Volume 3A, with the access rights of section 4.6.
- `Mapping.Maps`, `Mapping.Unmaps` and `Mapping.FillsLowestHole` describe an operation by every page of
  every context afterwards. The methods are proved to have these effects, and the theorems in
  `Guarantees`, `Contexts`, `DirectMap`, `Boot`, `Rights`, `Runs`, `Accounting` and `KernelApi` are about the
  effects.
- Running out of frames halts the kernel. Such a call returns `ok == false`, with the tables still
  sound and no frame of memory free. The bitmap may have clear bits past the end of memory, as `phys_init`
  leaves them; the allocator then hands out a frame that does not exist, which counts as none.
- A pointer to a table is modelled by its frame number. `Runs.TablesInReach` justifies it: over
  every run, in all contexts, the processor's access at `frame * 4096 + hhdm` reaches that frame.

## What the proofs found

Each of these is stated as a lemma that says exactly when the code does what one would expect, and
each has an input on which it does not (in `Witnesses`).

- `virt_map_user` maps every page of its range to the same frame: right only for one page
  (`Guarantees.MapUserIff`, `SecondPageIsFirst`). Its only caller maps one page.
- `virt_get_physical_address` does not add the offset within the page, and its mask includes bit 52, which
  the processor ignores (`Guarantees.PhysicalAddressIff`, `PhysicalAddressIsOff`).
- `virt_ctx_new` does not clear the new PML4: the new context has paths of its own exactly if the frame
  held a word that points into memory (`Contexts.NewContextPrivateIff`, `StaleFrameJoinsContexts`).
- `virt_init` never puts the kernel PDPT into its own context, and nothing the boot context does changes
  that (`Runs.RunStaysUnused`). A context made from it translates no address at all, so it agrees with
  the boot context exactly where that maps nothing (`Contexts.AgreesWithBootIff`, `KernelIsMissing`).
- `virt_init` maps a region whose base is not page-aligned one page short if the rounded length does not make
  up for the offset, and the low bits of the base become flags (`DirectMap.RegionCoveredIff`,
  `Entries.EntryOfAny`, `UnalignedRegion`).
- `uacpi_kernel_map` adds the offset also when no hole was found, so its failure is a null pointer only
  for a page-aligned physical address (`KernelApi.FailureIsNullIff`, `FailureIsNotNull`).
- `s_phys_bitmap_size` is computed in bytes and used as a number of words, so `phys_alloc` scans past the
  last frame and can return one that does not exist (`PhysRuns.RealFrameIff`, `PhantomFrame`). A region can
  run past the last frame too (`PhysRuns.RealRegionIff`, `PhantomRun`).
- `virt_alloc` and `virt_map_anywhere` return a range that runs past the last address, and
  `virt_user_alloc` one that is not below bit 47, exactly if no hole of that size ends in time
  (`Rights.UpperRangeIff`, `Rights.LowerRangeIff`, `UpperRangeOverruns`, `LowerRangeOverruns`).
- `phys_init` puts the bitmap past the end of a usable region that begins at 0 and is shorter than a page, as
  the length wraps around (`Phys.BitmapFitsIff`, `BitmapOutsideRegion`).
- `virt_init` maps width * height * bpp / 8 bytes for the framebuffer, whatever its pitch
  (`Guarantees.FramebufferRowsIff`, `SecondRowUnmapped`).
- `uacpi_kernel_map` of no bytes maps a page if the address is not page-aligned (`KernelApi.EmptyRangeIff`,
  `NoBytesOnePage`).
- A user page is open to user mode only if the links that already existed on its path were
  (`Rights.UserAccessIff`, `UserPageIsClosed`).
- A symbol lookup below the first symbol reports whatever name an earlier lookup found
  (`Symbols.StaleIff`, `EarlierNameReported`).

## Model

| member | source | states |
|---|---|---|
| Phys.FrameAllocator.Init | src/mem/phys.c:33-85 | frame f is free afterwards exactly if some region of the usable kind contains its address, it has no byte in the range of 8 times the bitmap's filled bytes from the bitmap on, and it is not frame 0; fails exactly if no region can hold the bitmap |
| Phys.FrameAllocator.FindStorage | src/mem/phys.c:47-60 | the first usable region longer than the bitmap, with the 64-bit subtraction for a region at 0 |
| Phys.FrameAllocator.FillBitmap | src/string.c:6-13 | filling bytes of the bitmap adds exactly the frames of those bytes to the used set |
| Phys.FrameAllocator.MarkUsable | src/mem/phys.c:72-81 | frees exactly the frames whose address lies in a region of the usable kind |
| Phys.UsableIff | src/mem/phys.c:72-81 | membership in the set the loop frees, for all indices |
| Phys.BitmapFitsIff | src/mem/phys.c:47-60 | the filled bytes lie in the region chosen for the bitmap exactly if it does not begin at 0 with less than a page |
| Phys.BitmapIsReserved | src/mem/phys.c:83 | the reserved range holds every byte of every bitmap word that a real frame has a bit in |
| Phys.FrameAllocator.MarkUsed | src/mem/phys.c:87-89 | adds exactly the frame of the address to the used set |
| Phys.FrameAllocator.MarkUnused | src/mem/phys.c:91-93 | removes exactly that frame |
| Phys.FrameAllocator.MarkRegionUsed | src/mem/phys.c:95-99 | adds exactly the frames of the byte range, a partial last page included |
| Phys.FrameAllocator.MarkRegionUnused | src/mem/phys.c:101-105 | removes exactly those |
| Phys.SetBit | src/mem/phys.c:13-15 | the word and bit of a frame: or-ing its mask in changes the used set by that frame and no other |
| Phys.ClearBit | src/mem/phys.c:144-146 | and-ing with the complement of its mask removes that frame and no other |
| Phys.FrameAllocator.Alloc | src/mem/phys.c:107-122 | with the full-word skip, takes the lowest free frame of the bitmap and sets exactly its bit; 0 if there is none |
| Phys.FrameAllocator.AllocRegion | src/mem/phys.c:124-142 | with the skip-ahead, takes the lowest run of free frames that begins inside the address space; 0 and no change if there is none |
| Phys.FrameAllocator.Free | src/mem/phys.c:144-146 | removes exactly that frame |
| Phys.FrameAllocator.FreeRegion | src/mem/phys.c:148-152 | removes exactly the frames of the byte range |
| Phys.FirstFreeIsLowest | src/mem/phys.c:107-122 | the frame a search finds is free and every lower one is used |
| Phys.FirstFitIsLowest | src/mem/phys.c:124-142 | the run a search finds is free and no lower base fits |
| Phys.SkipPast | src/mem/phys.c:128-131 | resuming past the blocking frame misses no base that fits |
| PhysRuns.NoDoubleGrant | src/mem/phys.c:84-152 | over every run of allocations and frees of held frames: live grants are pairwise disjoint, used frames are the initial ones plus the held ones, frame 0 is never held |
| PhysRuns.FrameGrant | src/mem/phys.c:107-122 | a granted frame was free, and the used set grows by exactly one |
| PhysRuns.RegionGrant | src/mem/phys.c:124-142 | the frames of a granted run were free, and the used set grows by exactly their number |
| PhysRuns.FrameIsLowest | src/mem/phys.c:107-122 | said outright: the lowest free frame becomes used, or all are used and nothing changes |
| PhysRuns.RegionIsLowest | src/mem/phys.c:124-142 | said outright: the frames of the lowest free run become used, every lower run holds a used frame; or every run does and nothing changes |
| PhysRuns.AllocFree | src/mem/phys.c:107-146 | freeing what was just allocated restores the used set |
| PhysRuns.RealFrameIff | src/mem/phys.c:41-42 | an allocation returns a real frame or 0 exactly if a real frame is free or every bit past them is set |
| PhysRuns.RealRegionIff | src/mem/phys.c:124-142 | a region allocation hands out only real frames exactly if a run that fits ends with them, or none fits at all |
| Entries.TableIndices | src/mem/virt.h:31-35 | the four shift-and-mask expressions are the page's indices of the four levels, nine address bits each from bit 12 up |
| Entries.SameIndices | src/mem/virt.h:31-35 | two addresses have the same four indices exactly if their bits 12-47 agree |
| Entries.MaskedEntry | src/mem/virt.c:39-42 | masking an entry yields the address of the frame it points to |
| Entries.EntryIsSum | src/mem/virt.c:236 | or-ing flags into a page-aligned address is adding them |
| Entries.EntryOfAny | src/mem/virt.c:236 | for any address the entry names its frame, and the low bits of an unaligned address leak into the flags |
| Entries.LinkFlagValues | src/mem/virt.c:84-87 | links made for user mappings carry PRESENT, WRITABLE and USER, others PRESENT and WRITABLE |
| PageTables.NodeTag | src/mem/virt.c:63-81 | in sound tables, the table a walk reaches belongs to the walking context or is under the shared PDPT, and has the level and prefix of the path |
| TableEdits.SetLeafEffect | src/mem/virt.c:236 | storing an entry changes one page, in exactly the contexts that share its PDPT |
| TableEdits.LinkTableNodes | src/mem/virt.c:44-61 | a linked table becomes the node of exactly the paths through its slot; every other node stays |
| TableEdits.LinkTableLeaves | src/mem/virt.c:56-57 | linking a cleared table changes no translation of any context |
| TableEdits.LinkTableSound | src/mem/virt.c:49-57 | linking a fresh cleared frame keeps the tables sound |
| Virt.AddressSpaces.ClearFrame | src/string.c:6-13 | clearing a frame byte by byte makes it zero and touches no other |
| Virt.AddressSpaces.GetEntryPtr | src/mem/virt.c:44-61 | the lookup without creation: null exactly for an empty slot |
| Virt.AddressSpaces.GetOrCreateEntryPtr | src/mem/virt.c:44-61 | the lookup with creation: an empty slot gets a link to a fresh cleared frame, a filled one is left alone |
| Virt.AddressSpaces.TablePtr | src/mem/virt.c:39-42 | follows a link |
| Virt.AddressSpaces.GetPte | src/mem/virt.c:63-81 | finds the entry that the reference walk finds |
| Virt.AddressSpaces.GetOrCreatePte | src/mem/virt.c:83-103 | afterwards the plain lookup finds the same entry; nothing changes if it was reachable, and no translation changes in any case |
| Virt.AddressSpaces.IsAddressMapped | src/mem/virt.c:105-109 | true exactly if the page has a nonzero entry |
| Virt.AddressSpaces.Map | src/mem/virt.c:229-241 | the pages of the range get consecutive frames, in this context and those that share their PDPT; nothing else changes but new tables |
| Virt.AddressSpaces.MapUser | src/mem/virt.c:243-251 | as above, with every page at the first frame and user links |
| Virt.AddressSpaces.Unmap | src/mem/virt.c:253-264 | exactly the pages of the range become unmapped; bitmap, tags and nodes are unchanged |
| Virt.AddressSpaces.FindHole | src/mem/virt.c:171-178 | the lowest page-aligned address at which the whole range is unmapped, or none |
| Virt.AddressSpaces.MapAnywhere | src/mem/virt.c:266-291 | fills the lowest hole with the physical range, or changes nothing and returns 0 |
| Virt.AddressSpaces.Alloc | src/mem/virt.c:170-196 | fills the lowest hole with fresh, pairwise distinct frames, or changes nothing and returns 0 |
| Virt.AddressSpaces.UserAlloc | src/mem/virt.c:198-224 | the same from 1 MiB up, with user links and entries |
| Virt.AddressSpaces.GetPhysicalAddress | src/mem/virt.c:293-298 | the frame address of a present entry, else 0 |
| Virt.AddressSpaces.CtxNew | src/mem/virt.c:151-163 | the structure's page fills the lowest hole of the current context, backed by a frame of its own that was free and holds no table; then only the last slot of an untagged fresh frame is written; every root stays a root; the result is valid exactly if the rest of the frame was zero; a failure means that no frame of memory is free |
| Virt.AddressSpaces.CtxUse | src/mem/virt.c:165-168 | CR3 becomes the given context's address |
| Virt.AddressSpaces.Init | src/mem/virt.c:111-149 | every frame of the six mapped kinds of memory and of the framebuffer is in place in the direct map, unaligned and overlapping regions included, the kernel window is mapped, nothing else is; the kernel PDPT and the lower half are empty; the frames used up are those of the tables and one for the context structure; if the free frames belong to the direct map, the invariant of every run holds; a failure means that no frame of memory is free |
| Virt.AddressSpaces.MapMemmap | src/mem/virt.c:126-139 | the loop over the memory map puts the covered frames in place and maps no other page |
| DirectMap.CoveredIff | src/mem/virt.c:129-137 | the frames that are covered are those some region of the six kinds reaches, and no others |
| Virt.AddressSpaces.MapDirect | src/mem/virt.c:136-141 | one region, aligned or not: the frames it reaches are added at their places, and nothing else is mapped |
| Mapping.MapsAppend | src/mem/virt.c:233-240 | mapping a range and then the next page has the effect of mapping the longer range, for all contexts |
| Mapping.UnmapsAppend | src/mem/virt.c:254-263 | the same for unmapping |
| Mapping.LastWriteExact | src/mem/virt.c:233-240 | the page at ring distance k from the first gets the k-th entry, pages beyond the range none, also where the address wraps |
| Mapping.PageSteps | src/mem/virt.c:234 | stepping i bytes in 64-bit arithmetic steps i / 4096 pages |
| Guarantees.MapIsUpdate | src/mem/virt.c:229-241 | virt_map is an update of a finite map from pages to entries |
| Guarantees.MapReachesFrames | src/mem/virt.c:229-241 | the processor takes byte i of a mapped range to byte i of its frames; it is writable exactly if the flags say so, and open to user mode exactly if the flags say so and the page had a complete open path before |
| Guarantees.MapLeavesOthers | src/mem/virt.c:229-241 | outside the range no access of the processor changes in any context, frame and rights alike |
| Guarantees.IsolatedAccess | src/mem/virt.c:83-103 | through any PML4 slot but the last, a mapping changes no access of any other context |
| Guarantees.UnmapAccess | src/mem/virt.c:253-264 | after an unmap the pages of the range fault in exactly the contexts that share their PDPT, and all other accesses are what they were in every context |
| Rights.SameAccess | src/mem/virt.c:44-61 | where tables only grow and the entry is the same, the processor's access is the same, rights included |
| Guarantees.UnmapIsRemoval | src/mem/virt.c:253-264 | virt_unmap is removal from that map and frees nothing |
| Guarantees.MapUserIsUpdate | src/mem/virt.c:243-251 | virt_map_user is an update of that map too, with the first frame's entry for every page |
| Guarantees.AllocBacksPages | src/mem/virt.c:181-189 | each page of an allocated range was unmapped and now has its own frame, free before and no table |
| Guarantees.AllocReaches | src/mem/virt.c:181-189 | the processor takes byte off of page k to byte off of its frame, writable exactly if the flags say so |
| Guarantees.AllocIsLowest | src/mem/virt.c:171-178 | below the returned address, or anywhere if none is returned, every page-aligned address has some page of the range mapped |
| Guarantees.FirstUserAllocation | src/mem/virt.c:199 | in an empty lower half the first user allocation is put at 0x100000 |
| Guarantees.AllocLeavesOthers | src/mem/virt.c:170-196 | no access outside an allocated range changes in any context, rights included |
| Guarantees.MapUserIff | src/mem/virt.c:249 | virt_map_user does what virt_map does exactly for at most one page |
| Guarantees.PhysicalAddressIff | src/mem/virt.c:293-298 | the result is where the access goes exactly if the address is page-aligned and bit 52 of the entry is clear |
| Hardware.TranslateIsLeaf | src/mem/virt.c:63-81 | in sound tables the processor's walk agrees with the kernel's lookup; writing is granted by the entry alone, user mode by the entry and the whole path |
| Hardware.MaskBit52 | src/mem/virt.c:10 | the kernel's mask and the processor read the same frame exactly if bit 52 is clear |
| Contexts.Isolation | src/mem/virt.c:83-103 | a mapping through any PML4 slot but the last leaves every other context's translation alone |
| Contexts.SharedMapping | src/mem/virt.c:160 | contexts that share the kernel slot translate all its pages alike, before and after every mapping |
| Guarantees.SharedAccess | src/mem/virt.c:160 | the processor's accesses to those pages have the same frame and the same right to write in all of them, and the same user right if their PML4 entries agree on it |
| Contexts.StaysShared | src/mem/virt.c:44-61 | no mapping ends the sharing |
| Contexts.NewContextShares | src/mem/virt.c:159-160 | a new context shares the slot, and the others still do |
| Contexts.NewContextSoundIff | src/mem/virt.c:153-160 | with the new PML4 tagged as a lone root, the tree invariant holds exactly if the uncleared frame was zero below its last slot |
| Contexts.NewContextPrivateIff | src/mem/virt.c:153-160 | the new context has no path outside the shared slot exactly if no word the frame held there points into memory |
| Contexts.CreationKeeps | src/mem/virt.c:151-163 | every context survives and translates every page but the structure's as before, whatever the frame held |
| Guarantees.CreationKeepsAccess | src/mem/virt.c:151-163 | nor does any of their accesses change but to that page, rights included |
| Guarantees.StructureAccess | src/mem/virt.c:152 | the processor's access to the structure's page reaches a frame that was free, is no table and not the new PML4, and may write there |
| Contexts.AgreesWithBootIff | src/mem/virt.c:114-163 | a context made from the boot context translates nothing, so it agrees with it exactly at the pages the boot context does not map |
| Contexts.AgreesWithSharerIff | src/mem/virt.c:159-160 | a new context agrees with one that shares the kernel slot exactly at the pages of that slot and where nothing is mapped |
| Guarantees.BootThenNewContext | src/mem/virt.c:111-163 | right after a boot from cleared memory a new context has sound tables, and every access through them faults |
| Contexts.NewContextTranslation | src/mem/virt.c:159-160 | a new context translates the pages of the shared slot and nothing else |
| Contexts.NewContextIsEmpty | src/mem/virt.c:114-160 | while nothing was mapped through the kernel PDPT, a new context translates nothing |
| Contexts.StaysUnused | src/mem/virt.c:121-145 | the boot context never puts anything into the kernel PDPT |
| Runs.RunStaysUnused | src/mem/virt.c:170-291 | nor does anything else over every run, unless another context maps in its last slot |
| Runs.OwnEventsAvoid | src/mem/virt.c:170-291 | what the boot context does itself never counts as that |
| DirectMap.RunInPlace | src/mem/virt.c:136 | mapping a run of frames at its place keeps what is in place, also where it overlaps and where the base is not page-aligned |
| DirectMap.RegionCoveredIff | src/mem/virt.c:136 | the mapped frames hold every byte of a region exactly if its rounded length makes up for the offset of its base, so always for an aligned one |
| Guarantees.RegionBytes | src/mem/virt.c:125-139 | after boot every byte p of an aligned region of the six kinds is at p + hhdm, readable and writable; so is every byte of an unaligned one that is mapped to its end |
| Guarantees.NothingElseMapped | src/mem/virt.c:125-145 | after boot no other byte of physical memory, of the other three kinds or of none, can be accessed through the direct map |
| Guarantees.WindowBytes | src/mem/virt.c:144-145 | after boot byte i of the kernel window is byte i of the kernel, writable and closed to user mode |
| Guarantees.FramebufferBytes | src/mem/virt.c:140-141 | after boot every byte of width * height * bpp / 8 bytes of framebuffer is where the boot loader said |
| Guarantees.FramebufferRowsIff | src/mem/virt.c:141 | all rows, a pitch apart, are mapped for the framebuffer exactly if the last one ends within that size rounded up |
| Boot.BootIsKept | src/mem/virt.c:111-149 | if the frames free before boot belong to the direct map, the invariant of every run holds after it |
| Boot.PhysInitWithin | src/mem/phys.c:72-84 | the frames that phys_init leaves free belong to the direct map |
| Startup.Start | src/main.c:40-46 | phys_init and then virt_init, whatever the bitmap memory held past the filled bytes: if both succeed, the invariant of every run holds, and they fail only if no region holds the bitmap or memory runs out |
| Guarantees.BootStartsRuns | src/mem/virt.c:111-149 | what virt_init leaves satisfies the premises of the theorems about runs |
| Guarantees.BootThenRun | src/mem/virt.c:111-291 | over every run that starts with what virt_init leaves: tables in reach; kernel PDPT empty unless another context maps in its last slot; and for runs that respect the halves, user mode can access in every context exactly what is mapped below bit 47 |
| DirectMap.DirectAccess | src/mem/virt.c:23-25 | the processor's access through the direct map reaches the physical address and may write there |
| DirectMap.DataWrite | src/mem/virt.c:153 | a write to a frame that holds no table changes no translation |
| Runs.RunKeeps | src/mem/virt.c:151-291 | every run of fills, unmaps of what was filled, context creations, frame allocations and frees, and data writes, in all contexts, keeps all tables sound and the boot context's direct map in place |
| Runs.FillIsStep | src/mem/virt.c:170-291 | filling the lowest hole is such an event, or changes nothing |
| Runs.JoinedBefore | src/mem/virt.c:44-61 | a mapping joins no context to a PDPT that another one had already |
| Runs.TablesInReach | src/mem/virt.c:39-42 | at every moment of such a run every word of every table of every context is where the kernel looks for it, readable and writable |
| Rights.UpperRangeIff | src/mem/virt.c:170-171 | an allocated kernel range stays in the upper half exactly if, before the call, some hole of its size ended within the address space |
| Rights.LowerRangeIff | src/mem/virt.c:198-199 | an allocated user range consists of lower-half addresses exactly if, before the call, some hole of its size ended below bit 47 |
| Rights.SlotsOfRange | src/mem/virt.c:83-103 | a PML4 slot that a mapping changes was empty, belongs to one of its pages, and gets its flags |
| Rights.UpperRangeSlots | src/mem/virt.c:170-171 | an upper-half mapping leaves PML4 slots 0-255 as they were |
| Rights.LowerRangeSlots | src/mem/virt.c:198-199 | a mapping that ends at or below bit 47 leaves slots 256-511 as they were |
| Runs.RunKeepsSlots | src/mem/virt.c:170-291 | while a context maps in one half only, the PML4 slots of its other half never change, whatever other contexts do |
| Rights.KernelPathOpenIff | src/mem/virt.c:84-95 | after a kernel mapping a page's path is open to user mode exactly if it was complete and open before |
| Rights.UserMappingKeepsOpen | src/mem/virt.c:84-95 | user mappings leave every path as open as it was |
| Rights.UserAccessIff | src/mem/virt.c:243-251 | a page of a range mapped for user mode can be read and written there exactly if the links that existed on its path were open |
| Runs.RunKeepsHalves | src/mem/virt.c:170-291 | over every run of user fills in lower halves and kernel fills in upper halves, in every context: user mode can read and write everything mapped below bit 47 and access nothing above |
| Guarantees.KernelFillRespects | src/mem/virt.c:170-196 | a kernel allocation that does not run past the last address is such a fill |
| Guarantees.UserFillRespects | src/mem/virt.c:198-224 | a user allocation that ends at or below bit 47 is such a fill, with USER, WRITABLE and PRESENT in every entry |
| Accounting.FramesTaken | src/mem/virt.c:44-61 | a mapping uses up one frame for each missing table, its data frames, and nothing else |
| Accounting.NothingMissing | src/mem/virt.c:46-60 | where all tables exist, mapping takes no frame for tables |
| Accounting.TablesFormATree | src/mem/virt.c:44-103 | each table a context reaches has exactly one slot that leads to it, is not its own parent or the root, and is a used frame |
| Rounding.CeilChunk | src/util.h:81-87 | the least multiple that is enough, wrapped to 64 bits |
| Rounding.CeilDiv | src/util.h:89-95 | the number of chunks |
| Rounding.CeilIsLeast | src/util.h:81-95 | that number is the least that is enough |
| KernelApi.KernelMap | src/acpi/kernel_api.c:32-40 | maps the range at the lowest hole and returns the hole plus the offset; for a range of at least one byte, no access in any context changes but to pages that the bytes lie in |
| KernelApi.KernelUnmap | src/acpi/kernel_api.c:42-48 | every byte of the range faults; for a range of at least one byte, no access in any context changes but to pages that the bytes lie in |
| KernelApi.EmptyRangeIff | src/acpi/kernel_api.c:32-37 | a range of no bytes is mapped to no page exactly if the address is page-aligned |
| KernelApi.MappedBytes | src/acpi/kernel_api.c:32-40 | the processor takes byte k of the result to byte k of the physical range, and may write it |
| KernelApi.MapUnmapRestores | src/acpi/kernel_api.c:32-48 | unmapping the returned pointer restores the whole translation of every context |
| KernelApi.MapUnmapRestoresAccess | src/acpi/kernel_api.c:32-48 | and every access of the processor in every context, rights included |
| KernelApi.FailureIsNullIff | src/acpi/kernel_api.c:37-39 | failure shows as a null pointer exactly for a page-aligned address |
| Symbols.PointerToNumber | src/debug/stacktrace.c:14-32 | the value of 16 digits, other characters counting as 0 |
| Symbols.PointerRoundTrip | src/debug/stacktrace.c:14-32 | reading inverts 16-digit printing for every value and every mix of letter cases |
| Symbols.OtherCharacters | src/debug/stacktrace.c:22-28 | characters that are no hexadecimal digits count as 0 |
| Symbols.StrChr | src/string.c:89-96 | the first occurrence before the terminator |
| Symbols.FindCharIff | src/string.c:89-96 | none is found exactly if there is none before the terminator |
| Symbols.StrNCpy | src/string.c:106-113 | the copied prefix, always terminated; what follows the terminator is untouched |
| Symbols.CopyName | src/debug/stacktrace.c:59-62 | the first 63 characters of the name are copied and the overwritten newline restored |
| Symbols.NameIsCopy | src/debug/stacktrace.c:59-61 | for a line of any length: the string 17 characters on, cut to 63, with the newline blanked out |
| Symbols.FirstLine | src/debug/stacktrace.c:55 | the scan begins only if the first newline comes after more than ten characters |
| Symbols.FindName | src/debug/stacktrace.c:53-64 | the scan ends with the name found in the static buffer and the file byte for byte as before, short lines included |
| Symbols.FoundIsLookup | src/debug/stacktrace.c:53-64 | on well-formed lines what is found is found line by line |
| Symbols.LookupIsPredecessor | src/debug/stacktrace.c:55-64 | on a sorted map the lookup leaves the first 63 characters, or all, of the last name at or below the address; if there is none, the earlier name stays |
| Symbols.StaleIff | src/debug/stacktrace.c:51-57 | the previous name survives exactly if the map is empty or its first address is above the target |
| Witnesses.SecondPageIsFirst | src/mem/virt.c:249 | input: two pages, the second of which virt_map_user maps to the first frame |
| Witnesses.PhysicalAddressIsOff | src/mem/virt.c:293-298 | inputs: an unaligned address, and an entry with bit 52 set |
| Witnesses.StaleFrameJoinsContexts | src/mem/virt.c:153-160 | input: a frame with a stale link, through which the new context translates what another context maps |
| Witnesses.KernelIsMissing | src/mem/virt.c:114-160 | input: a boot context that maps everything, of which the new context has nothing |
| Witnesses.FailureIsNotNull | src/acpi/kernel_api.c:32-40 | input: a full upper half and the physical address 1, for which the failure is the pointer 1 |
| Witnesses.PhantomFrame | src/mem/phys.c:107-122 | input: all real frames used and a clear bit after them, which is handed out |
| Witnesses.PhantomRun | src/mem/phys.c:124-142 | input: one free frame at the end of memory, from which a region of two frames runs past it |
| Witnesses.BitmapOutsideRegion | src/mem/phys.c:51-60 | input: a usable region of half a page at address 0, past whose end the bitmap is put |
| Witnesses.UpperRangeOverruns | src/mem/virt.c:266-291 | input: an upper half that is full but for 17 pages, and a mapping of 18 pages that wraps around |
| Witnesses.LowerRangeOverruns | src/mem/virt.c:198-224 | input: a full lower half, where virt_user_alloc returns an address that is not canonical |
| Witnesses.UserPageIsClosed | src/mem/virt.c:198-224 | input: tables left by kernel mappings, under which a user allocation is closed to user mode |
| Witnesses.UnalignedRegion | src/mem/virt.c:136 | input: an unaligned ACPI region, whose last byte is not mapped and whose base leaks the user flag |
| Witnesses.SecondRowUnmapped | src/mem/virt.c:141 | input: two rows whose pitch is twice their length, of which the second is not mapped |
| Witnesses.NoBytesOnePage | src/acpi/kernel_api.c:32-37 | input: no bytes at an unaligned address, for which a page is mapped |
| Witnesses.EarlierNameReported | src/debug/stacktrace.c:51-64 | input: an address below the first symbol, reported with the name found before |
| Witnesses.BootIsPossible | src/mem/virt.c:125-145 | a small machine meets what virt_init and phys_init ask of the boot loader |
| Witnesses.StartIsPossible | src/main.c:40-46 | that machine with cleared memory meets all that the start of the kernel asks for |
| Witnesses.RunsCanStart | src/mem/virt.c:23-42 | there are tables that lie in the direct map they define, from which runs can start |

## Left out

- Virt.AddressSpaces.Map: does not model flags with bit 7 set, which make big pages, nor do the two
  lookups model their early return of a page-directory entry; sound tables have no such entry.
- Virt.AddressSpaces.MapUser: does not model bit 7 either.
- `virt_free`, which is empty.
- CR3 loads beyond the root they select, `invlpg`, CPUID, MSRs, port I/O and the TLB.
- The context structure in memory: a context is the value of its `phys` field, and `virt` is that frame
  through the direct map. `virt_ctx_new` with no hole left writes through address 0; here that call
  works on.
- Unchecked failures of the second and third allocation in `virt_init` count as a halt.
- Virt.AddressSpaces.Init: assumes that two frames read as zero, because the kernel PDPT and the PML4
  are not cleared (`Boot.TableFramesZero`); it also assumes the boot loader's layout (`Boot.BootLayout`), with the kernel window
  above the direct map. The context structure is not written into its frame.
- Phys.FrameAllocator.Init: says nothing of frames past the bytes that are filled, as the bitmap
  memory holds whatever it held; the bitmap is an array of its own, which `Phys.BitmapIsReserved` justifies.
- What happens after the allocator has handed out a frame past the end of memory: the call ends there as
  if memory had run out.
- `Runs.Create` assumes that the frame of the new PML4 read as zero below its last slot, as `virt_ctx_new`
  does not clear it; `Contexts.NewContextPrivateIff` says what happens otherwise.
- Sizes above 2^64 - 4096 bytes, for which the C loops never end.
- The virtual address of a table pointer: tables are named by frame, and the direct map theorems relate the two.
- Contents of `hcf` and all logging.
- `strcmp`, `strncmp`, the search for the symbol map module, the common-handler flag and the
  stack-frame walk.
- Symbols.FindName: assumes that the last line has 16 characters and that a terminator follows the file, as
  the reads would leave the file otherwise; it takes the difference between a null pointer and the
  file's start as a parameter.
- `src/drv`, `src/int`, the rest of `src/main.c`, `src/acpi/acpi.c`, `src/acpi/lapic.c`, `src/mem/gdt.c` and the log
  level conversion: device plumbing and tables that would only add easy members.

# Verified models of CrackOS2

CrackOS2 is a kernel for x86-64. This project models its hand-written data structures and protocols in Dafny and
proves what they keep, over every input, every run or every interleaving. The models take the same branches as the
code and use the same constants; operations that change memory step by step are methods over that memory, and each is
proved against a function whose properties are lemmas.

`dafny verify dfyconfig.toml` covers the whole project.

## What is modelled

- **Physical pages** (`FreeList`, `MemoryMap`, `BootChain`, `AllocatorRuns`, `PhysicalAllocator`): the free list whose
  descriptors lie in the free pages themselves, from the memory map of the boot loader to arbitrary runs of
  allocations and client writes.
- **Release of pages** (`FreeListRelease`, `MergedPages`, `ReleaseRuns`): where released pages go, exactly which pages
  the merge pass gains and loses, and runs of allocations and releases.
- **Page tables** (`Machine`, `PageTree`, `PageTable`): the bit layout of entries, the radix tree of tables that are
  taken from the allocator and reached through the window at 96 Ti, and its refinement to a finite map of pages.
- **Both together** (`KernelMemory`): boot, and every run of allocations, client writes, mappings and unmappings.
- **Boot paging** (`BootPaging`): mapping the kernel from a buffer of 32 pages.
- **Smart pointers** (`DestructorCascade`, `SmartPointer`): control blocks and handles over arbitrary graphs, with the
  nested destructors of deleted objects. What a destruction does is first defined on the graph alone; the methods with
  their counts are proved against that.
- **Disk** (`Prdt`, `Sata`): the table of physical regions, and byte-granular access to whole sectors.
- **Kernel heap** (`Heap`, `MappedHeap`, `HeapRuns`): the list of large blocks, the memory behind them, and runs of
  kmalloc and kfree.
- **Process mappings** (`ProcessMapping`, `MappedProcess`): the list of mappings, compaction, and loading into and
  unloading from the page tables.
- **Secondary processors** (`SecondaryCpu`): the start handshake as a transition system.
- **Paths** (`Ext4Path`): resolving a path in an ext4 directory tree.
- **Numbers** (`NumberPrinting`): decimal, hexadecimal and other printers.

## Where the code does less than one might expect

The models keep the code as it is. For each of these the project has the exact condition or a concrete case:

- `freePhysicalMemory` merges neighbours that are one page apart instead of adjacent ones, and also the sentinel
  (`FreeListRelease.MergeKeepsFreeSetIff`, `FreeListRelease.ReleaseAddsExactlyIff`,
  `FreeListRelease.SentinelMergeLosesPages`). It refuses ranges that touch a free one. If page 1 is free after boot, no
  release adds exactly its pages (`FreeListRelease.NothingComesBackExactly`). A merge can take a page in use for free,
  which is then granted again (`MergedPages.GainedIff`, `ReleaseRuns.RunIsSafeIff`, `ReleaseRuns.UsedPageIsStolen`).
- If the last two usable entries of the memory map begin at the same page, the free list ends in a loop
  (`BootChain.BootListEndsIff`).
- `allocatePhysicalMemory` never looks at the last region (`PhysicalAllocator.Allocator.AllocatePhysicalMemory`).
- `getPhysicalAddress` does not test the present bit of big pages (`PageTree.LookupAgreesWithCpuIff`).
- A control block is freed under the running destructor of its object when its last weak handles are destroyed on the
  way (`DestructorCascade.CorruptsIff` says exactly when). A storage and its partition table are such a graph
  (`SmartPointer.LastStorageHandleGoes`). Assigning from a pointer inside an object that the assignment destroys reads
  memory that has been given back (`SmartPointer.PointerHeap.AssignShared`).
- `createPrdt` skips pages that are not adjacent to the entry being filled (`Prdt.CommandTable.CreatePrdt`). A read
  larger than its table into a buffer that does not begin at a multiple of 512 answers with more bytes than have been
  transferred (`Sata.Sata.PartIsStored`, `Sata.Sata.ReadPastTheTable`). A write of less than a sector asks for 65536
  sectors (`Sata.SectorsToWrite`). A write inside a sector overwrites the bytes in front of it
  (`Sata.Sata.WriteInsideSector`).
- The gap search of `kmalloc` wraps when neighbours share a page (`Heap.GapWrapsIff`), and `kfree` asks for one page
  too many for some blocks (`Heap.GivenBackIff`), with a virtual address, so that nothing comes back, but the merge pass
  runs and may take a page of another block for free (`MappedHeap.MappedHeap.Kfree`).
- A newer mapping of a page loses to an older one (`ProcessMapping.OlderMappingWins`), and `compact` loses the flags
  of merged entries (`ProcessMapping.CompactKeepsCallsIff`).
- `sendInterrupt` keeps bits of the previous destination, so with four processors number 2 is never started
  (`SecondaryCpu.BitmapSignalledIff`, `SecondaryCpu.FourProcessors`).
- A missing later component of a path gives 2^63 - 1 instead of -1 (`Ext4Path.ResolveIsWalk`), a doubled slash at the
  end makes any path fail (`Ext4Path.PathLeadsToWalk`), and `implExists` says yes to everything
  (`Ext4Path.ImplExists`).
- `intToString` of the least 64-bit number writes only its sign (`NumberPrinting.WrittenReadsBackIff`).

## Model

| member | source | states |
|---|---|---|
| `FreeList.SubtractIsSetMinus` | src/Memory/physicalAllocator.cpp:248-321 | Carving the list through all five overlap cases is set subtraction: the pages listed afterwards are those listed before and outside the carved range. |
| `FreeList.ChainIsUnique` | src/Memory/physicalAllocator.cpp:91-95 | The descriptors in memory determine the free list: two well-formed lists that the same memory describes are equal from any common node on, so the chain is acyclic and ends at 0. |
| `FreeList.ChainFrame` | src/Memory/physicalAllocator.cpp:91-95 | Arbitrary writes outside page 0 and the free pages leave every live descriptor as it was. |
| `FreeList.GrantIsSetMinus` | src/Memory/physicalAllocator.cpp:103-113 | A grant removes exactly the granted pages from the free set, and they were free. |
| `FreeList.GrantConservesPages` | src/Memory/physicalAllocator.cpp:105-107 | A grant of count pages lowers the sum of the page counts by exactly count. |
| `FreeList.GrantKeepsChain` | src/Memory/physicalAllocator.cpp:105-112 | The writes of a grant leave a well-formed list that memory describes, and touch only page 0 and free pages. |
| `MemoryMap.BootListWellFormed` | src/Memory/physicalAllocator.cpp:225-245 | The list built at boot has non-empty, disjoint regions behind the sentinel in page 0. |
| `MemoryMap.FreePagesAreUsable` | src/Memory/physicalAllocator.cpp:228-245 | Boot lists exactly the whole pages of type-1 entries other than page 0, in both directions. |
| `MemoryMap.TakeOutIsSetMinus` | src/Memory/physicalAllocator.cpp:248-266 | setUsed removes exactly the pages from start / 4096 up to one page behind the rounded-up end. |
| `MemoryMap.KernelListIsSafe` | src/Memory/physicalAllocator.cpp:323-340 | After readMultibootInfos a free page is a whole usable page, is not page 0, and holds no byte of the kernel or the trampoline. |
| `MemoryMap.KernelPagesAreKept` | src/Memory/physicalAllocator.cpp:225-340 | Boot writes a page that holds a byte of the kernel only if it is page 0 or the first page of a usable entry. |
| `BootChain.BootListEndsIff` | src/Memory/physicalAllocator.cpp:226-244 | From any regions, overlapping or not: the chain that the loop over the memory map writes has an end if and only if the last two usable entries do not begin at the same page. |
| `BootChain.NullPageEntryLoops` | src/Memory/physicalAllocator.cpp:228-244 | Such a map: a usable entry that consists of page 0 alone, followed by the last usable entry, in page 1. The chain then never ends. |
| `AllocatorRuns.AllocateIsSafe` | src/Memory/physicalAllocator.cpp:97-121 | One allocation keeps the safety invariant: granted ranges stay pairwise disjoint, inside the initial free pages and outside the current ones, and the chain stays readable. |
| `AllocatorRuns.ClientWriteIsSafe` | src/Memory/physicalAllocator.cpp:91-95 | A write of any word into a granted page keeps the safety invariant. |
| `AllocatorRuns.BootedRunIsSafe` | src/Memory/physicalAllocator.cpp:97-121 | For every memory that describes the list boot leaves, over every run of allocations and client writes: granted ranges are pairwise disjoint, never hold page 0, and consist of whole usable pages without a byte of kernel or trampoline. |
| `AllocatorRuns.RunIsSafe` | src/Memory/physicalAllocator.cpp:97-121 | The safety invariant holds after every sequence of allocations and client writes. |
| `PhysicalAllocator.Allocator.SetUsed` | src/Memory/physicalAllocator.cpp:248-321 | The loop that relinks descriptors in memory terminates and leaves the list that set subtraction prescribes; it writes only the sentinel, pages with descriptors of the old list, and the page behind the range where a free region goes on. |
| `PhysicalAllocator.Allocator.Grant` | src/Memory/physicalAllocator.cpp:103-113 | Taking pages from the back of a region, and linking it out when none is left, gives the prescribed list, memory and address. |
| `PhysicalAllocator.Allocator.AllocatePhysicalMemory` | src/Memory/physicalAllocator.cpp:97-121 | First fit over all regions but the last; it finds none exactly when each of these is too small, and then changes nothing. |
| `PhysicalAllocator.Allocator.WriteReservedTable` | src/Memory/physicalAllocator.cpp:206-219 | Page 0 holds the descriptors of the entries that are not usable, in order, behind the sentinel. |
| `PhysicalAllocator.Allocator.LinkUsableRegions` | src/Memory/physicalAllocator.cpp:226-244 | For every map with page-aligned usable entries, overlapping or not, memory ends as the step-by-step definition of the chain says. |
| `PhysicalAllocator.Allocator.InitMemoryInfos` | src/Memory/physicalAllocator.cpp:190-246 | Succeeds exactly when the reserved table fits into page 0. From a sane map memory then describes the boot list, and only page 0 and the first pages of usable entries are written; from any map with page-aligned usable entries the chain has an end exactly if the last two do not begin at the same page. |
| `PhysicalAllocator.Allocator.ReadMultibootInfos` | src/Memory/physicalAllocator.cpp:323-340 | Boot as a whole leaves memory describing the boot list without the kernel and the trampoline, and no other page is written than page 0, the first pages of usable entries, and the pages behind the two images where a free region goes on. |
| `FreeListRelease.PlacedBetween` | src/Memory/physicalAllocator.cpp:140-162 | The insertion search accepts a region only strictly between two neighbours with at least one page to spare on each side. |
| `FreeListRelease.PlacedIff` | src/Memory/physicalAllocator.cpp:140-162 | On a list in address order the search finds a place exactly if the region lies between two neighbours before the last, with at least one page to spare on each side. |
| `FreeListRelease.InsertKeepsOrder` | src/Memory/physicalAllocator.cpp:150-157 | Inserting there keeps the list sorted, disjoint and well-formed. |
| `FreeListRelease.InsertIsUnion` | src/Memory/physicalAllocator.cpp:151-156 | The insertion adds exactly the released pages to the free set. |
| `FreeListRelease.MergeConservesPages` | src/Memory/physicalAllocator.cpp:164-180 | The merge pass keeps the sum of the page counts, the sentinel included. |
| `FreeListRelease.MergeShortens` | src/Memory/physicalAllocator.cpp:164-180 | The merge pass shortens the list exactly when two neighbours are one page apart, and otherwise returns it unchanged. |
| `FreeListRelease.MergeKeepsOrder` | src/Memory/physicalAllocator.cpp:164-180 | The merge pass keeps the list sorted and its regions non-empty. |
| `FreeListRelease.MergeKeepsFreeSetIff` | src/Memory/physicalAllocator.cpp:167-176 | The merge test asks for a gap of one page, so the pass keeps the free set exactly when it merges nothing. |
| `FreeListRelease.SentinelMergeLosesPages` | src/Memory/physicalAllocator.cpp:165-176 | When the first region starts one page behind the sentinel, the merge makes its pages vanish from the free set. |
| `FreeListRelease.ReleaseAddsExactlyIff` | src/Memory/physicalAllocator.cpp:122-181 | Releasing pages in use adds exactly them to the free set if and only if they lie between two neighbours before the last node, at least one page away from each, and then no two neighbours before the last node are exactly one page apart. |
| `FreeListRelease.NothingComesBackExactly` | src/Memory/physicalAllocator.cpp:122-181 | On a list whose first region begins one page behind the sentinel, as when page 1 is free after boot, no release of pages in use behind its start ever adds exactly them. |
| `FreeListRelease.HighPagesOnlyMerge` | src/Memory/physicalAllocator.cpp:137-180 | Releasing page numbers above physical memory gives nothing back, on any list whose sentinel ends within physical memory; only the merge pass runs. |
| `MergedPages.FreeAfterMerge` | src/Memory/physicalAllocator.cpp:164-180 | The free pages after the merge pass, for every list: those of each node that the sentinel has not absorbed, one more at the end of the first and one less at the end of the last of joined nodes. |
| `MergedPages.GainedIff` | src/Memory/physicalAllocator.cpp:164-180 | On a list in address order the pass makes a page free exactly if it lies between a node other than the sentinel and the first one joined to it. |
| `MergedPages.LostIff` | src/Memory/physicalAllocator.cpp:164-180 | It loses a page exactly if the sentinel has absorbed the node, or it is the last page of the last of joined nodes. |
| `MergedPages.TouchingGrantIsGained` | src/Memory/physicalAllocator.cpp:103-176 | A page granted from a region that touches the next one is taken for free by the next merge pass, unless the region is itself joined to the one before it. |
| `MergedPages.SamePageTwice` | src/Memory/physicalAllocator.cpp:103-176 | Of two regions that touch, one page is granted, and after a merge pass it is granted again. |
| `ReleaseRuns.ReleaseIsSafeIff` | src/Memory/physicalAllocator.cpp:122-181 | Giving a grant back leaves all other grants exclusive if and only if the regions it joins have no page of another grant between them. |
| `ReleaseRuns.RunIsSafeIff` | src/Memory/physicalAllocator.cpp:97-181 | In every run of allocations and releases, no page is ever granted twice or free while granted if and only if no release steals a page in this way. |
| `ReleaseRuns.EveryPageIsGranted` | src/Memory/physicalAllocator.cpp:97-121 | Allocating page by page, every free page before the last region is granted in the end. |
| `ReleaseRuns.StolenPageIsGrantedTwice` | src/Memory/physicalAllocator.cpp:97-181 | After a release that steals a page, enough allocations of one page grant it while it is in use. |
| `ReleaseRuns.UsedPageIsStolen` | src/Memory/physicalAllocator.cpp:97-181 | A concrete run: three grants, and giving back the second steals the page of the first. |
| `FreeListRelease.KernelListInOrder` | src/Memory/physicalAllocator.cpp:225-340 | From a memory map in address order, boot builds a list in address order. |
| `FreeListRelease.GrantKeepsOrder` | src/Memory/physicalAllocator.cpp:105-112 | Allocation keeps the list in address order. |
| `PhysicalAllocator.Allocator.InsertPass` | src/Memory/physicalAllocator.cpp:137-162 | The first loop of freePhysicalMemory refuses, inserts or finds nothing as the placement function says, keeps the list sorted, and writes memory only when it inserts. |
| `PhysicalAllocator.Allocator.MergePass` | src/Memory/physicalAllocator.cpp:164-180 | The second loop terminates and leaves the merged list, writing only to page 0 and free pages. |
| `PhysicalAllocator.Allocator.FreePhysicalMemory` | src/Memory/physicalAllocator.cpp:122-181 | The whole operation: unchanged memory for page 0 and for ranges near a reserved entry, otherwise the released list. Pages in use become free, and no others, if and only if the range does not begin at page 0, is not near a reserved entry, and has a place where nothing is joined. |
| `Machine.FieldsOfRaw` | src/Memory/pageTable.cpp:11-32 | Reading the bit fields of a page-table entry back gives what was stored, and every entry fits into 64 bits. |
| `Machine.SamePageSameLevels` | src/Memory/pageTable.cpp:40-52 | Two addresses have the same 36-bit page number exactly if they agree in all four table indices. |
| `Machine.BigPageAddress` | src/Memory/pageTable.cpp:206-208 | Joining the fields of a 1 GiB page with bitwise or is base plus offset. |
| `Machine.LargePageAddress` | src/Memory/pageTable.cpp:211-213 | Joining the fields of a 2 MiB page with bitwise or is base plus offset. |
| `PageTree.WalkTables` | src/Memory/pageTable.cpp:85-119 | The tables met on the way of an address are those of the tree, as far as it has them. |
| `PageTree.LinkIsInvisible` | src/Memory/pageTable.cpp:94-114 | Linking a zeroed table behind an empty entry keeps the tree and the window and changes the translation of no address. |
| `PageTree.LeafIsLocal` | src/Memory/pageTable.cpp:182-196 | Writing a leaf changes the translation of the addresses of one page and of no other, and keeps the tree and the window. |
| `PageTree.SamePageSameKind` | src/Memory/pageTable.cpp:200-220 | All addresses of a page meet the same kind of entry and, unless it is a big page, the same frame. |
| `PageTree.BigClearIsInvisible` | src/Memory/pageTable.cpp:158-165 | Clearing the present bit of a big page ends the processor's translation, but the kernel's own lookup answers as before. |
| `PageTree.LookupAgreesWithCpuIff` | src/Memory/pageTable.cpp:200-220 | The kernel's lookup agrees with the processor's 4-level walk (Intel SDM Vol. 3A, section 4.5) for every address except exactly those where a big-page entry with the present bit clear yields a nonzero address. |
| `PageTree.WindowIsIdentity` | src/Memory/tempMapping.cpp:8-12 | Once the window stands, both walks answer p for 96 Ti + p, for every p below 512 Gi. |
| `PageTree.OtherWalks` | src/Memory/pageTable.cpp:127-148 | Filling the window changes no translation outside its 512 GiB. |
| `PageTree.WindowTree` | src/Memory/pageTable.cpp:131-148 | The tables with the window table added form a tree again, and the window stands. |
| `PageTree.SmallPagesImplemented` | src/Memory/pageTable.cpp:200-220 | The finite map of all mapped small pages holds exactly what the walk finds. |
| `PageTable.LinkEntry` | src/Memory/pageTable.cpp:97-113 | Every field of an entry that links a table. |
| `PageTable.LeafEntry` | src/Memory/pageTable.cpp:180-196 | Every field of an entry that maps a page, with the four options in their places and execute-disable off. |
| `PageTable.ClearPresent` | src/Memory/pageTable.cpp:158-168 | Only the present bit changes. |
| `PageTable.BigEntry1Gi` | src/Memory/pageTable.cpp:133-146 | Every field of the window entry for a 1 GiB page. |
| `PageTable.PageTable.Init` | src/Memory/pageTable.cpp:121-150 | Establishes the window at 96 Ti from boot tables that map themselves; every other translation is kept, and the finite map of small pages holds. |
| `PageTable.PageTable.LinkedPage` | src/Memory/pageTable.cpp:85-92 | Answers with a pointer to the linked table exactly if the entry is present. |
| `PageTable.PageTable.AllocatePage` | src/Memory/pageTable.cpp:62-75 | The page comes zeroed from the allocator, was free, is free no more, and is no table yet; no translation changes. |
| `PageTable.PageTable.EnsureLinkedPage` | src/Memory/pageTable.cpp:85-119 | After the call the table exists and is reached by the returned pointer; the new tables are exactly the pages that have left the free set, no translation changes, and it fails only if at most the last region is left. |
| `PageTable.PageTable.EnsureTables` | src/Memory/pageTable.cpp:175-178 | The three linked tables of an address exist afterwards; old tables stay where they are, the new ones are exactly the pages that have left the free set, no translation changes. |
| `PageTable.PageTable.GetPhysicalAddress` | src/Memory/pageTable.cpp:200-220 | Returns the kernel's lookup of every address, present or not, big page or not. |
| `PageTable.PageTable.Map` | src/Memory/pageTable.cpp:172-198 | Updates exactly one entry of the finite page map; every other address keeps its translation, table pages stay distinct and disjoint from the free set, the new leaf holds the given flags, and every other present entry keeps its word. |
| `PageTable.PageTable.Unmap` | src/Memory/pageTable.cpp:152-169 | Removes exactly one page from the finite page map: one word loses its present bit and nothing else; a big page stays visible to the kernel's lookup and vanishes for the processor. |
| `KernelMemory.Boot` | src/main.cpp:28-29 | The page tables are set up and then the memory map is read: if the boot tables lie in the kernel image and none is the first page of a usable entry, the allocator owns exactly the usable pages outside kernel and trampoline, the tables are a valid tree with the window, and every translation outside the window is that of the boot tables. |
| `KernelMemory.TakePages` | src/Memory/physicalAllocator.cpp:97-121 | An allocation beside the page tables changes no translation, and the granted pages are no tables and no earlier grants. |
| `KernelMemory.PutWord` | src/Memory/physicalAllocator.cpp:97-121 | A client write into a granted page changes no translation and no descriptor. |
| `KernelMemory.Run` | src/Memory/pageTable.cpp:152-220 | Over every run of allocations, client writes, map and unmap: grants and tables stay pairwise disjoint and are exactly what has left the free set, getPhysicalAddress answers the finite map that the operations describe and is unchanged under big pages, and the kernel halts only for want of pages. |
| `KernelMemory.BootAndRun` | src/main.cpp:28-29 | The same from boot on, in terms of the boot tables, the memory map and the operations alone. |
| `KernelMemory.TakenPagesAreSafe` | src/Memory/physicalAllocator.cpp:323-340 | Every page that clients or page tables get after boot is a whole usable page, not page 0, and holds no byte of the kernel or the trampoline. |
| `BootPaging.SetAddress` | src/start.cpp:131-137 | On any entry: the address field is replaced, the entry becomes present, and every other field is kept. |
| `BootPaging.BootTables.EnsurePage` | src/start.cpp:139-153 | Takes one page from the buffer if and only if the entry is empty, zeroes and links it, and changes no translation. |
| `BootPaging.BootTables.Map` | src/start.cpp:155-165 | Uses as many buffer pages as tables are missing and maps exactly one page, mapped before or not. |
| `BootPaging.KernelPageLevels` | src/start.cpp:203-205 | The table indices of the pages of a kernel that starts at a multiple of 512 Gi. |
| `BootPaging.BootTables.SetPageTableForHighKernel` | src/start.cpp:169-206 | Accepts exactly the sizes the two checks let through; uses exactly as many buffer pages as tables are missing, at most 31 of 32, and the processor translates every page of the kernel as intended; translations under other level-4 entries stay. |
| `DestructorCascade.DeletesIff` | header/LanguageFeatures/SmartPointer.hpp:166-180 | Over all graphs of handles: destroying a shared handle deletes an object exactly if each of its shared handles is this one or is destroyed inside a deleted object. |
| `DestructorCascade.DropsIff` | header/LanguageFeatures/SmartPointer.hpp:171-171 | The smart pointers destroyed on the way are exactly those inside the deleted objects. |
| `DestructorCascade.DeletedIsLeast` | header/LanguageFeatures/SmartPointer.hpp:166-180 | The deleted objects are the least set with that property, so ownership cycles that the destruction does not reach are left alone. |
| `DestructorCascade.CascadeCloses` | header/LanguageFeatures/SmartPointer.hpp:171-178 | Every destructor that begins in a cascade has returned when the cascade ends. |
| `DestructorCascade.CorruptsIff` | header/LanguageFeatures/SmartPointer.hpp:166-178 | Over all graphs, decided before the call: destroying a shared handle frees a control block under the running destructor of its object, or destroys the handle again, exactly if the handle is inside a deleted object, or some deleted object still has weak handles when its destructor begins and none when it ends. |
| `DestructorCascade.FirstObjectIff` | header/LanguageFeatures/SmartPointer.hpp:166-178 | For the object that the handle itself lets go: its block is freed too early exactly if it has weak handles and all of them are inside deleted objects. |
| `DestructorCascade.BackPointerIsFatal` | header/Storage/Partition.hpp:30-31 | A child owned by its parent alone, with the only weak pointer back to the parent: the parent's block is freed under its running destructor, in every such graph. |
| `SmartPointer.WeakReleasedIsValid` | header/LanguageFeatures/SmartPointer.hpp:323-332 | Dropping a weak handle keeps all counts right, except that it frees the block under the running destructor exactly if it was the last weak handle of a dying object. |
| `SmartPointer.FinishedIsValid` | header/LanguageFeatures/SmartPointer.hpp:171-178 | After the destructor the block is freed exactly if no weak handle refers to it, and no handle is left pointing to a freed block. |
| `SmartPointer.TakenIsValid` | header/LanguageFeatures/SmartPointer.hpp:225-230 | Counting one more reference does not overflow while fewer than 2^32 - 1 shared handles exist. |
| `SmartPointer.LogsMatchHandles` | header/LanguageFeatures/SmartPointer.hpp:166-180 | Between operations an object has been deleted if and only if no shared handle refers to it, a block has been freed if and only if no handle does, and both counts are the numbers of handles. |
| `SmartPointer.OutsideObserversAreSafe` | header/LanguageFeatures/SmartPointer.hpp:166-178 | If every object that a destruction deletes has no weak handles or keeps one outside the deleted objects, nothing is corrupted. |
| `SmartPointer.StorageGraphIsFatal` | src/Storage/Storage.cpp:18-31 | The graph of a storage and its partition table meets that condition. |
| `SmartPointer.LastStorageHandleGoes` | src/Storage/Storage.cpp:18-31 | Built by the operations of addStorage: when the last handle on the storage goes, its control block is freed under its running destructor. |
| `SmartPointer.PointerHeap.DestroyShared` | header/LanguageFeatures/SmartPointer.hpp:166-180 | destroy of a shared pointer with all destructors it sets off, over arbitrary graphs: it corrupts memory exactly as the graph before the call says; otherwise exactly the prescribed objects are deleted, the prescribed handles end, all others keep their pointers, and all counts are right. |
| `SmartPointer.PointerHeap.DestroyWeak` | header/LanguageFeatures/SmartPointer.hpp:323-332 | destroy of a weak pointer changes only this handle and its block, and corrupts memory exactly if it is the last weak handle of a dying object. |
| `SmartPointer.PointerHeap.DeleteObject` | header/LanguageFeatures/SmartPointer.hpp:171-172 | The destructors of all smart pointers inside the object run in order, with the events of the reference definition. |
| `SmartPointer.PointerHeap.MakeShared` | header/LanguageFeatures/SmartPointer.hpp:195-202 | A new block with one reference, for an object that owns the given smart pointers. |
| `SmartPointer.PointerHeap.CopyShared` | header/LanguageFeatures/SmartPointer.hpp:225-230 | Copy construction adds one handle to the source's block and deletes or frees nothing. |
| `SmartPointer.PointerHeap.MoveShared` | header/LanguageFeatures/SmartPointer.hpp:232-236 | Move construction passes the reference on and leaves the source null; no count changes. |
| `SmartPointer.PointerHeap.DestructShared` | header/LanguageFeatures/SmartPointer.hpp:220-223 | The handle ends; the deleted objects and ended handles are those of the graph, all others stay, and corruption is exactly the stated condition. |
| `SmartPointer.PointerHeap.AssignShared` | header/LanguageFeatures/SmartPointer.hpp:238-250 | Copy assignment from any handle, self-assignment included: it fails exactly if the destruction corrupts memory or the source is inside an object that it deletes; otherwise the handle takes the source's pointer. |
| `SmartPointer.PointerHeap.MoveAssignShared` | header/LanguageFeatures/SmartPointer.hpp:252-263 | Move assignment from any handle, with the same exact condition; the source becomes null unless it is the handle itself. |
| `SmartPointer.PointerHeap.MakeWeak` | header/LanguageFeatures/SmartPointer.hpp:336-344 | Construction of a weak handle from either kind, null or not; no object comes or goes. |
| `SmartPointer.PointerHeap.AssignWeakFromShared` | header/LanguageFeatures/SmartPointer.hpp:350-357 | Assignment from a shared pointer that is not null, whatever the weak handle is inside of. |
| `SmartPointer.PointerHeap.AssignWeak` | header/LanguageFeatures/SmartPointer.hpp:359-369 | Copy assignment from a weak pointer that is not null, self-assignment included. |
| `SmartPointer.PointerHeap.MoveAssignWeak` | header/LanguageFeatures/SmartPointer.hpp:371-381 | Move assignment of weak pointers. |
| `SmartPointer.PointerHeap.DestructWeak` | header/LanguageFeatures/SmartPointer.hpp:391-393 | The weak handle ends and every other handle keeps its pointer. |
| `SmartPointer.PointerHeap.Lock` | header/LanguageFeatures/SmartPointer.hpp:387-405 | The new shared handle is not null if and only if the object is alive. |
| `Prdt.CommandTable.CreatePrdt` | src/Storage/SATA.cpp:245-281 | The entries describe exactly the physical bytes behind the consumed part of the buffer, in order, if and only if every page that does not start an entry follows its predecessor in physical memory; at most 8 entries, each below 4 MiB, with odd byte counts for even sizes; consumed plus left is the size. |
| `Prdt.CommandTable.AddChunk` | src/Storage/SATA.cpp:253-277 | One round of the loop: the chunk extends the current entry, starts the next one, is skipped, or finds no entry left. |
| `Prdt.ContiguousIsCovered` | src/Storage/SATA.cpp:263-265 | A physically contiguous buffer is described without gaps. |
| `Prdt.ProgressSteps` | src/Storage/SATA.cpp:249-279 | One chunk keeps the exact account of what has been described. |
| `Prdt.CutInsideSectorIff` | src/Storage/SATA.cpp:245-281 | A transfer of whole sectors is cut off inside a sector exactly if the buffer exceeds the table's capacity and does not begin at a multiple of 512. |
| `Sata.Sata.FindSlot` | src/Storage/SATA.cpp:314-325 | The first free slot, or none exactly if all are busy. |
| `Sata.Sata.ReadAligned` | src/Storage/SATA.cpp:617-645 | The aligned part of read: the number of bytes the table consumes, of which exactly the whole sectors have been stored; all of them are the disk's exactly if the answer ends at a sector or the buffer held the rest before. |
| `Sata.Sata.FixMisalignedOffsetRead` | src/Storage/SATA.cpp:536-571 | For an offset inside a sector: exactly size bytes of the disk, or -1, with at most three commands. |
| `Sata.Sata.FixMisalignedSizeRead` | src/Storage/SATA.cpp:573-590 | For a size that is not a multiple of 512: exactly size bytes of the disk, or -1, with at most two commands. |
| `Sata.Sata.FixMisalignedBufferRead` | src/Storage/SATA.cpp:592-602 | For an odd buffer: as an even one, through a copy. |
| `Sata.Sata.Read` | src/Storage/SATA.cpp:604-646 | For every offset, size and buffer parity: -1 or the number of bytes read, which are the bytes of the disk; misaligned offsets and sizes give exactly size or -1; nothing outside the buffer changes; the mutual recursion terminates and issues at most one command for each partial sector and one for the rest. For whole sectors and an even buffer the promised bytes are all there exactly if the table can describe the buffer, or it begins at a multiple of 512, or the rest was there before. |
| `Sata.Sata.PartIsStored` | src/Storage/SATA.cpp:617-645 | The exact condition under which an answer that the table cuts off is still right. |
| `Sata.Sata.ReadPastTheTable` | src/Storage/SATA.cpp:617-645 | A concrete wrong answer: 32 MiB read to an address two bytes behind a page boundary. |
| `Sata.Sata.WriteAligned` | src/Storage/SATA.cpp:743-769 | The last part of write, at any offset: the whole sectors that the table consumes go to the sector in which the offset lies. |
| `Sata.Sata.WriteInsideSector` | src/Storage/SATA.cpp:730-769 | At an offset inside a sector that part overwrites the bytes in front of the offset with the beginning of the data, and what it stores at the offset is the data exactly if the data repeats itself with the distance from the sector. |
| `Sata.Sata.FixMisalignedSizeWrite` | src/Storage/SATA.cpp:693-713 | The whole sectors and then the last one by read, change and write; the bytes behind the end are kept. |
| `Sata.Sata.Write` | src/Storage/SATA.cpp:728-769 | Despite falling through to a second write: only the written range of the disk changes, it holds the bytes of the buffer, and the rest of the last sector is kept. |
| `Sata.Sata.WriteThenRead` | src/Storage/SATA.cpp:604-769 | What has been written is what a following read returns, for any buffer. |
| `Sata.SectorsToWrite` | src/Storage/SATA.cpp:757-760 | The sector count of a write is 0, which the device takes for 65536, exactly for sizes below 512. |
| `Heap.InsertedIsLinked` | src/Memory/heap.cpp:88-97 | Linking a header in between two neighbours keeps all next and prev links in agreement. |
| `Heap.InsertedIsOrdered` | src/Memory/heap.cpp:72-97 | A block that fits a gap keeps the list address-ordered and the page ranges disjoint. |
| `Heap.RemovedIsLinked` | src/Memory/heap.cpp:145-155 | Linking a header out keeps all next and prev links in agreement. |
| `Heap.GapWrapsIff` | src/Memory/heap.cpp:67-72 | The unsigned gap computation wraps exactly if the next block starts in the page in which this one ends, and then any request seems to fit. |
| `Heap.GapFitsIff` | src/Memory/heap.cpp:69-76 | Between page-aligned blocks the test finds exactly the gaps that the new block fits into. |
| `Heap.BytesAreMapped` | src/Memory/heap.cpp:76-97 | The page of every byte of a block, payload included, is mapped. |
| `Heap.OtherBlocksKeepPages` | src/Memory/heap.cpp:77-87 | Mapping a new block changes the translation of no page of another block. |
| `Heap.GivenBackIff` | src/Memory/heap.cpp:129-172 | The range handed to the physical allocator has as many pages as the block exactly if the block does not end at a page boundary or the next one begins there; otherwise it has one more. |
| `Heap.KernelHeap.FindGap` | src/Memory/heap.cpp:61-105 | The search finds the first gap after the first block that is large enough, or the end of the list. |
| `Heap.KernelHeap.Kmalloc` | src/Memory/heap.cpp:24-123 | Adds exactly one block at the first fitting gap, maps exactly its pages to the given memory, and keeps the list ordered, linked and disjoint; nothing changes when there is no memory. |
| `Heap.KernelHeap.Kfree` | src/Memory/heap.cpp:124-173 | Removes exactly one block and keeps everything else; a pointer that is not in the list is a no-op. |
| `Heap.KernelHeap.FreeTwice` | src/Memory/heap.cpp:125-128 | Freeing a pointer twice is the same as freeing it once. |
| `MappedHeap.MappedHeap.Kmalloc` | src/Memory/heap.cpp:24-123 | With the real allocator and page tables: a new block goes to the first fitting gap, its pages are mapped to pages that were free and are now owned by it alone, and every other block keeps its memory; it fails only when no region but the last has the pages, or only the last one is left. |
| `MappedHeap.MappedHeap.ByteOfBlock` | src/Memory/heap.cpp:76-97 | The bytes of a block lie in the order of their addresses in the physical region behind it. |
| `MappedHeap.MappedHeap.BytesAreApart` | src/Memory/heap.cpp:24-123 | No two bytes of live blocks share physical memory. |
| `MappedHeap.MappedHeap.Kfree` | src/Memory/heap.cpp:124-173 | The physical allocator is handed a virtual address and gives nothing back. No translation changes and no page in use is written. Tables and all other blocks keep their pages to themselves if and only if the reserved table has stopped the allocator or the merge pass has gained no page of theirs. |
| `MappedHeap.MapBlock` | src/Memory/heap.cpp:77-87 | The mapping loop: exactly the pages of the block are mapped, to consecutive frames, and the tables it needs come from the free pages; it fails only if no region but the last is left. |
| `HeapRuns.BlockStays` | src/Memory/heap.cpp:24-173 | In every run of kmalloc and kfree a block keeps its address, its size and its pages until it is freed itself. |
| `HeapRuns.Run` | src/Memory/heap.cpp:24-173 | Every sequence of calls up to the first kfree is such a run, unless the kernel halts for want of pages or a pointer is foreign, and leaves a heap from which the next run can go on; only that kfree can break it, and then a page that the merge pass has gained belongs to a table or a block. |
| `HeapRuns.CallKfree` | src/Memory/heap.cpp:124-173 | As a call of a run, when the allocator merges: the heap is sound afterwards if and only if no gained page belongs to a table or a block. |
| `HeapRuns.RunsCompose` | src/Memory/heap.cpp:24-173 | Runs that begin where others end make one run. |
| `ProcessMapping.Mapping.Compact` | src/Process/Process.cpp:43-56 | The repeated passes terminate and leave every maximal run of mergeable entries as one entry, with nothing left to merge. |
| `ProcessMapping.MergeIsConfluent` | src/Process/Process.cpp:48-53 | Merging any mergeable pair first does not change the final list. |
| `ProcessMapping.NothingLeftToMerge` | src/Process/Process.cpp:48-48 | No two neighbours of the final list can be merged. |
| `ProcessMapping.OlderMappingWins` | src/Process/Process.cpp:9-17 | A new mapping comes first in the list, so load lets every older mapping of a page win over it: only the pages that the new entry alone has take its memory. |
| `ProcessMapping.CompactKeepsCallsIff` | src/Process/Process.cpp:43-76 | For page-multiple entries, loading the compacted list makes the same calls in the same order exactly if every non-empty entry agrees with the first entry of its run on being writable. |
| `ProcessMapping.CompactKeepsTranslation` | src/Process/Process.cpp:43-76 | Whatever the flags, the table that load leaves after compact has the same pages mapped to the same memory as the table it leaves before; the last entry in list order wins in both. |
| `ProcessMapping.LoadThenUnload` | src/Process/Process.cpp:58-87 | Loading and then unloading leaves the pages of the list unmapped and all others as they were. |
| `ProcessMapping.ApplyChangesOnlyPages` | src/Process/Process.cpp:58-76 | Loading changes the entries of the list's pages and of no others. |
| `MappedProcess.Load` | src/Process/Process.cpp:58-76 | With the real page tables: afterwards they are overridden by the table that the list spells out, later entries winning, down to the bits of each entry; every other page is as before. It fails only if the allocator has no region but the last. |
| `MappedProcess.Unload` | src/Process/Process.cpp:78-87 | Exactly the pages of the list are unmapped. |
| `MappedProcess.LoadAndUnload` | src/Process/Process.cpp:58-87 | Run one after the other, the two leave exactly the pages outside the list mapped, to the same memory as before. |
| `MappedProcess.CompactAndLoad` | src/Process/Process.cpp:43-76 | Run one after the other, compact and load map the pages of the list as it was to the memory that load alone maps them to. |
| `SecondaryCpu.DestinationIsBitwise` | src/ACPI/APIC.cpp:301-304 | The destination byte keeps the low four bits of the old one and adds the bits of the new one. |
| `SecondaryCpu.ReachedIff` | src/ACPI/APIC.cpp:301-314 | Every interrupt reaches the processor it is meant for exactly if each number contains the low four bits of the one before it. |
| `SecondaryCpu.ReachableInv` | src/ACPI/APIC.cpp:318-363 | The invariant of the handshake holds in every state reachable by interleaving the processors' steps. |
| `SecondaryCpu.AllSignalledIff` | src/ACPI/APIC.cpp:346-363 | When initAllCPUs has returned, every processor of the list has read its own number and signalled, if and only if the numbers form such a chain. |
| `SecondaryCpu.ChainIff` | src/ACPI/APIC.cpp:356-360 | The numbers in the bitmap form such a chain exactly if of any two the larger has the low four bits of the smaller, and all have those of the first destination byte. |
| `SecondaryCpu.BitmapSignalledIff` | src/ACPI/APIC.cpp:346-363 | When initAllCPUs has returned, every processor of the bitmap other than its own has read its own number and signalled, if and only if the bitmap has that property. |
| `SecondaryCpu.ThirdProcessorIsLost` | src/ACPI/APIC.cpp:301-304 | No bitmap with the processors 1 and 2 beside the boot processor has it. |
| `SecondaryCpu.EveryReadIsOwn` | src/ACPI/APIC.cpp:336-344 | With a chain, no processor ever reads a number that is not its own. |
| `SecondaryCpu.NoNumberIsOverwritten` | src/ACPI/APIC.cpp:330-333 | The number is never overwritten while a processor has still to read it or to signal. |
| `SecondaryCpu.NobodyWaitsInVain` | src/ACPI/APIC.cpp:332-333 | With a chain, whenever the boot processor waits, the processor it waits for can take a step. |
| `SecondaryCpu.WaitsForMissingProcessor` | src/ACPI/APIC.cpp:331-333 | If an interrupt reaches no processor, the boot processor never gets past that round. |
| `SecondaryCpu.FourProcessors` | src/ACPI/APIC.cpp:301-304 | Processors 0 to 3 started from 0: number 2 is never reached and number 3 is reached twice. |
| `Ext4Path.MatchesIff` | src/Storage/Ext4.cpp:302-321 | A record matches exactly if its name is the first component of the path and it is a directory whenever more follows. |
| `Ext4Path.ResolveIsWalk` | src/Storage/Ext4.cpp:338-372 | getINodeNumber computes the component-by-component walk; if the first component is missing the result is -1, if a later one is it is 2^63 - 1. |
| `Ext4Path.ComponentsOfPath` | src/Storage/Ext4.cpp:321-327 | Splitting a written path gives back its names; more than one slash at the end adds an empty name. |
| `Ext4Path.PathLeadsToWalk` | src/Storage/Ext4.cpp:287-372 | A path with at most one slash at the end leads to the inode of the walk over its names; with more it leads nowhere, even if every name exists. |
| `Ext4Path.StartsWith` | src/Storage/Ext4.cpp:305-318 | The comparison loop says whether the name begins the path. |
| `Ext4Path.SearchBlock` | src/Storage/Ext4.cpp:289-334 | Walking the record chain of a block finds its first matching record. |
| `Ext4Path.LookForFile` | src/Storage/Ext4.cpp:287-336 | Block after block, the first match of a leaf. |
| `Ext4Path.TravelFile` | src/Storage/Ext4.cpp:231-246 | Leaf after leaf of a depth-0 extent tree, the first match of the directory. |
| `Ext4Path.GetINodeNumber` | src/Storage/Ext4.cpp:338-372 | The code, with its context that is first an address and then a flagged result, computes the resolution function and terminates on the length of the path. |
| `Ext4Path.ImplExists` | src/Storage/Ext4.cpp:161-166 | The result is compared as an unsigned number, so every path exists. |
| `Ext4Path.ResolveIsNotZero` | src/Storage/Ext4.cpp:338-372 | No path resolves to inode 0. |
| `NumberPrinting.DigitsReadBack` | src/BasicOutput/Output.cpp:97-107 | Digits are digits, begin with no zero, and read back as the number. |
| `NumberPrinting.DigitsAreUnique` | src/BasicOutput/Output.cpp:97-107 | There is only one way to write a number without leading zeros. |
| `NumberPrinting.DigitCountIff` | src/BasicOutput/Output.cpp:97-107 | A number has at most k digits exactly if it is below the k-th power of the base. |
| `NumberPrinting.TwentyDigits` | src/BasicOutput/Output.cpp:97-107 | A 64-bit number has at most 20 decimal digits. |
| `NumberPrinting.SignedTextReadsBack` | src/BasicOutput/Output.cpp:87-95 | Signed texts read back as the number, with or without a plus sign. |
| `NumberPrinting.PaddedReadsBack` | src/BasicOutput/Output.cpp:64-85 | Padded hexadecimal texts read back and are as long as asked for or as needed. |
| `NumberPrinting.MultiplierGrows` | src/BasicOutput/Output.cpp:98-101 | The multiplier stays a power of ten and never exceeds the number, so it does not overflow. |
| `NumberPrinting.Output.PrintDec` | src/BasicOutput/Output.cpp:97-107 | Prints the digits of every 64-bit number, and 0 as 0. |
| `NumberPrinting.Output.PrintDecSigned` | src/BasicOutput/Output.cpp:87-95 | Prints every signed 64-bit number, the least one included. |
| `NumberPrinting.Output.PrintHex` | src/BasicOutput/Output.cpp:64-85 | Prints the lowest maxSize digits with at least minSize of them. |
| `NumberPrinting.Reverse` | src/LanguageFeatures/string.cpp:32-43 | Reverses the first characters of the buffer in place and leaves the others. |
| `NumberPrinting.IntToString` | src/LanguageFeatures/string.cpp:3-30 | Writes the number with its sign and an end mark, for bases 2 to 36. |
| `NumberPrinting.WrittenReadsBackIff` | src/LanguageFeatures/string.cpp:8-11 | The written text reads back exactly if the number is not the least one, whose negation is still negative. |

## Left out

- SmartPointer.PointerHeap.DestroyShared: after memory has been corrupted nothing more is said; destructors do nothing
  but destroy the smart pointers of their object; `unique_ptr` and `static_pointer_cast` are not modelled.
- SmartPointer.PointerHeap.AssignWeakFromShared: null sources are not modelled, since the code dereferences them;
  likewise for `SmartPointer.PointerHeap.AssignWeak`.
- PageTable.PageTable.Map: addresses whose path crosses a big page, on which the code would write into the mapped
  page; physical addresses from 512 Gi up, at which `mapPages` halts.
- PageTable.PageTable.Unmap: big pages inside the window.
- PageTable.PageTable.AllocatePage: the branch for init is part of `PageTable.PageTable.Init`, which needs one page of
  the buffer of six.
- PhysicalAllocator.Allocator.InitMemoryInfos: usable entries begin at a page, and one at page 0 has at least a page;
  for the list to be well-formed they are disjoint and have a page left without page 0. The entry size of the boot
  loader is taken to be 24 and the tag type to be right.
- KernelMemory.Boot: the boot tables lie in the kernel image and are identity-mapped, none of them is the first page
  of a usable entry, on which boot writes a descriptor. The assembly that builds the first tables is not part of this
  model.
- PhysicalAllocator.Allocator.FreePhysicalMemory: lists that are not sorted by address, which the insertion does not
  expect, and releases of no pages.
- BootPaging.BootTables.SetPageTableForHighKernel: no big page lies below the level-4 entry of the kernel at first,
  and the boot code reaches tables by their physical addresses.
- Prdt.CommandTable.CreatePrdt: odd buffers, which read never passes on.
- Sata.Sata.Read: buffers are physically contiguous; a command goes to the first slot, because the address of another
  slot is computed without its size (src/Storage/SATA.cpp:512); offsets end below 2^57, the range of a 48-bit sector
  number. How a real device interprets the commands 0x20 and 0x35 is not modelled.
- Sata.Sata.Write: misaligned offsets, for which `Sata.Sata.WriteInsideSector` says what the last part does, but not
  the calls of the helpers before it; odd buffers, sizes below 512 and failing commands.
- Heap.KernelHeap.Kmalloc: requests of at most half a page, which may share pages with other blocks; addresses end
  below 2^64.
- Heap.KernelHeap.Kfree: returns the range for the physical allocator; what that does with it is stated for
  `MappedHeap.MappedHeap.Kfree`, for free lists in address order, which boot, kmalloc and kfree keep.
- HeapRuns.Run: goes up to the first kfree only, since whether the heap is sound afterwards is no value of the program.
- ReleaseRuns.RunIsSafeIff: works on the free list alone; grants without pages are not given back. `KernelMemory` has
  the runs without releases over memory and page tables.
- MappedHeap.MappedHeap.Kmalloc: the heap ends below the window at 96 Ti; the headers are not stored in the mapped
  pages.
- MappedProcess.Load: entries end below 2^48, where the walk takes no more bits of the address, and no page of theirs
  lies under a big page.
- ProcessMapping.Mapping.Compact: 64-bit wrap-around of address plus size. Replacing the list link by a move, which
  deletes before it reads, is modelled as removal of the next entry.
- SecondaryCpu.ReachableInv: delays, caches and the assembly of the trampoline; memory is sequentially consistent.
- Ext4Path.GetINodeNumber: directories in inline data or in deeper extent trees, symbolic links, and failing reads;
  paths lie below 2^63, as all kernel addresses do.
- NumberPrinting.Output.PrintHex: minimum sizes above 16, which wrap in the code. The ring buffer behind the printers
  is not a ring (src/BasicOutput/Output.cpp:37) and is left out.
- `Mapping::unmap` does not compile (src/Process/Process.cpp:21) and is not part of this model.
- `Ext4::implRead` and index nodes of extent trees: offsets and entries are not advanced as the format asks.
- Invalidation of the translation cache, ports, interrupt controllers, timers, ACPI and PCI tables, and formatted
  output.

# BetaOS: models and proofs

BetaOS is a hobby x86_64 kernel. This project models the algorithms of the kernel and of its Objective-C runtime that
hold hard properties, in the form they have there (classes with fields changed in place, loops over arrays, recursion),
and proves what they are for. Each module stands for one component.

| module | component |
|---|---|
| `XhciRing`, `XhciEvents`, `XhciDriver` | the producer and consumer rings of the xHCI driver: driver and controller as steps over shared slots (`XhciRing`, `XhciEvents`), and the driver's own methods (`XhciDriver`); eXtensible Host Controller Interface for USB, sections 4.9.2 to 4.9.4 |
| `ClassTree` | the stackless walk over the tree of realized classes |
| `ListArray` | the container of no, one or many metadata lists, and its iterator |
| `PageTables`, `BootTables`, `BootInit` | entries, the processor's walk and the kernel's lookup (`PageTables`), the tables built at boot and what they mean (`BootTables`), the code that builds them (`BootInit`); Intel SDM Vol. 3A, section 4.5 |
| `MemoryRegions`, `VmInit` | the firmware memory map turned into allocatable regions, and trimming by a page budget: meaning and code |
| `SvgaFifo` | the VMware SVGA command FIFO, with a device that reads at any time |
| `DeviceTreeFormat`, `DeviceTree` | the flattened device tree: format and abstract tree, and the code that reads it |
| `Smbios` | the SMBIOS structure table and the memory buffer it is read through; DMTF DSP0134, sections 6.1.2 and 6.1.3 |
| `BootArgsText`, `BootArgs` | boot arguments: words and numbers, and the pointer loops over the command line |
| `Rasteriser` | lines, filled circles and rounded corners drawn in integers |
| `UsbTransfer` | a transfer split into packets |
| `Descriptors` | descriptor tables rewritten in place into the processor's layout; Intel SDM Vol. 3A, sections 3.4.5 and 6.14.1 |
| `Common` | the option type, bytes, zeros and word sizes that several modules share |

A method that changes state is tied by its `ensures` to a function of the old state or to the abstract value it stands
for; what that function or value means is proved by lemmas beside it.

## Where code and promise differ

Each of these is proved, with the exact condition under which the promise holds.

- A 256-slot ring does not always take 254 outstanding TRBs: with 254 there is room only while the controller does not
  still have to take the Link behind the last free slot (`XhciRing.StoreKeepsInvIff`); a run that keeps to the rules
  gets there (`XhciRing.NoRoomReached`). Without room a complete enqueue makes the ring look empty
  (`XhciRing.OverfullRingStalls`). At most 253 outstanding before each store is always safe.
- The end marker of a ring with 255 outstanding TRBs overwrites one of them (`XhciRing.MarkKeepsInvIff`,
  `XhciRing.MarkDestroysReached`).
- `pmap_pte` does not return NULL for exactly the unmapped addresses: for the pages from the end of the kernel's tables
  up to the end of the NKPT level-1 tables, and for no others, it returns the address of a zero entry
  (`BootTables.NullIsUnmappedIff`, `BootTables.FirstZeroEntry`).
- The free pages are the usable ones behind the kernel, and the low ones reserved for it, exactly when three kinds of
  memory range do not occur (`MemoryRegions.FreePagesAreIntendedIff`). A range that starts below the first available
  page and ends exactly on it goes into the "entire range useable" branch and gives out pages that are in use
  (`MemoryRegions.ExposedExample`). An empty range on page 0 is taken for all of memory
  (`MemoryRegions.EmptyRangeExample`). Page numbers are cut to 32 bits, so that pages beyond are lost and others given
  out in their place (`MemoryRegions.HighRangeExample`).
- The check for a full table comes too early for a range that needs two slots: with 127 regions in the table, a range
  around the first available page is written past its end (`MemoryRegions.OverrunReached`). At most 127 ascending ranges
  never do that (`MemoryRegions.NeverFull`).
- A FIFO command of Max - Min bytes passes the size check but never finds room (`SvgaFifo.FitsWhenDrained`), and the
  alignment check refuses only sizes that leave 1 when divided by 4 (`SvgaFifo.Svga.FIFOReserve`).
- `find_entry` takes a node without properties for the end of the nodes. A failed search leaves the cursor at the end of
  the tree exactly when all nodes have properties (`DeviceTreeFormat.StopsAtEndIff`), and what is found is the first
  match of the whole tree exactly when no match is hidden behind such a node (`DeviceTreeFormat.SearchIsCompleteIff`;
  `DeviceTreeFormat.HiddenMatch` is a tree of three nodes in which one is). Iterating over children gives NULL behind a
  child with such a node in it (`DeviceTree.AllReachedIff`, `DeviceTree.UnreachedChild`).
- Looking for a child by name stops at a sibling without a name, and behind one with a node without properties in it. A
  path leads to the first child of each name exactly when no such sibling comes before one of them, which is so in every
  tree with names and properties throughout (`DeviceTreeFormat.LookupIff`); `DeviceTreeFormat.HiddenChild` is a tree in
  which one is missed.
- A path may end in two separators after a name, and its lookup still succeeds (`DeviceTreeFormat.LookupMeaning`,
  `DeviceTreeFormat.TwoTrailingSeparators`).
- For a name with an underscore the string copied may be longer than the length asked for: it stays within it exactly
  when the length is at least 17 or the value fits with its NUL (`BootArgsText.UnderscoredFitsIff`,
  `BootArgsText.FiveBytesForFour`). For all other names it does (`BootArgsText.WritesWithinLength`).
- `getval` does not take a decimal zero with a size suffix, such as `0k`, for a number (`BootArgsText.GetValOfPrint`).
- Iterating over list arrays reads past a list without elements (`ListArray.ReadAll`, `ListArray.ReadPastEmptyList`).

## Model

| member | source | states |
|---|---|---|
| XhciRing.StartInv | Kernel/Modules/XHCIController.cpp:378-414 | the rings that `start` sets up meet the ring invariant: nothing outstanding, only slot 255 a Link back to slot 0 |
| XhciRing.EmptyRingSlots | Kernel/Modules/XHCIController.cpp:378-414 | a new ring is 255 TRBs of zeros and a Link that holds the ring's address and toggles the cycle |
| XhciRing.LinkLeads | Kernel/Modules/XHCIController.cpp:392-398 | a Link that holds the address of a slot leads the controller to that slot, and toggles its cycle state if it says so |
| XhciRing.StoreKeepsInvIff | Kernel/Modules/XHCIController.cpp:905-912 | storing a TRB keeps the invariant if and only if there is room and the TRB is not a Link |
| XhciRing.HandOverKeepsInv | Kernel/Modules/XHCIController.cpp:913-917 | handing the Link over and starting the next lap keeps the invariant |
| XhciRing.MarkKeepsInvIff | Kernel/Modules/XHCIController.cpp:898-903 | the end marker keeps the invariant if and only if it overwrites no outstanding TRB |
| XhciRing.DeviceMoveKeepsInv | Kernel/Modules/XHCIController.cpp:905-919 | a controller step, executing a TRB or following the Link, keeps the invariant |
| XhciRing.StepInv | Kernel/Modules/XHCIController.cpp:891-936 | every allowed step of driver or controller keeps the invariant |
| XhciRing.RunIsFifo | Kernel/Modules/XHCIController.cpp:891-936 | over every interleaving the controller executes an initial part of the enqueued TRBs in order, and the slots between the indices hold the rest; the enqueued TRBs are those handed in, in every field but the cycle bit |
| XhciRing.DeviceProgress | Kernel/Modules/XHCIController.cpp:905-936 | the controller can move exactly when a TRB or only the Link lies before it, takes the oldest outstanding TRB, and never passes the producer |
| XhciRing.DeviceDrains | Kernel/Modules/XHCIController.cpp:905-936 | left alone, the controller executes everything outstanding |
| XhciRing.FewOutstandingIsRoom | Kernel/Modules/XHCIController.cpp:905-936 | fewer than 254 outstanding TRBs before a store always leave room |
| XhciRing.OverfullRingStalls | Kernel/Modules/XHCIController.cpp:905-936 | an enqueue leaves the controller able to move if and only if there was room |
| XhciRing.NoRoomReached | Kernel/Modules/XHCIController.cpp:905-936 | an allowed run from the start leads to 254 outstanding TRBs without room, where a store breaks the invariant |
| XhciRing.MarkDestroysReached | Kernel/Modules/XHCIController.cpp:891-903 | an allowed run from the start leads to 255 outstanding TRBs, where the end marker breaks the invariant |
| XhciRing.EnqueueIsItsWrites | Kernel/Modules/XHCIController.cpp:905-919 | an uninterrupted enqueue is its two shared writes, appends the TRB to what was sent and keeps the invariant |
| XhciRing.EnqueueDelivers | Kernel/Modules/XHCIController.cpp:905-919 | an enqueue puts the caller's TRB, in every field but the cycle bit, into the enqueue slot, and changes nothing else but the cycle bit of a Link behind it |
| XhciRing.MarkEndDelivers | Kernel/Modules/XHCIController.cpp:891-903 | the end marker is a TRB of zeros but for its cycle bit, and no other slot changes |
| XhciEvents.AtMostOneLap | Kernel/Modules/XHCIController.cpp:592-636 | for any ring contents the event loop takes at most one event per slot and stops before a stale slot |
| XhciEvents.TakeOne | Kernel/Modules/XHCIController.cpp:593-635 | one turn of the loop takes the first of the events that are taken in all, and leaves where the loop stops |
| XhciEvents.LastTransferEventCounts | Kernel/Modules/XHCIController.cpp:598-601 | an endpoint ends with no transfer pending and the time and completion code of the last event naming it |
| XhciEvents.OtherEndpointsUnchanged | Kernel/Modules/XHCIController.cpp:598-601 | an endpoint that no event names keeps its status |
| XhciEvents.EventNamesEndpoint | Kernel/Modules/XHCIController.cpp:599-601 | slot and low five bits of byte 3 name every endpoint of every slot, and tell them apart |
| XhciEvents.PendingCountsDown | Kernel/Modules/XHCIController.cpp:611-614 | every command completion takes one off the pending count, which stops at zero |
| XhciEvents.LastCompletionCounts | Kernel/Modules/XHCIController.cpp:615-620 | a port ends with the slot number of the last completion of its command |
| XhciEvents.OtherPortsUnchanged | Kernel/Modules/XHCIController.cpp:615-620 | a port whose command no event completes keeps its slot number |
| XhciEvents.FreshRingInv | Kernel/Modules/XHCIController.cpp:592-593 | a zeroed event ring with both ends at slot 0 and cycle state 1 meets the event-ring invariant |
| XhciEvents.PostKeepsInv | Kernel/Modules/XHCIController.cpp:592-636 | posting while a slot is free keeps the invariant |
| XhciEvents.HandleKeepsInv | Kernel/Modules/XHCIController.cpp:592-636 | handling a fresh event keeps the invariant and handles the oldest event posted and not yet handled |
| XhciEvents.EventRunIsFifo | Kernel/Modules/XHCIController.cpp:592-636 | over every interleaving of posts and handled events, what was handled is an initial part of what was posted; the posted events are those put in, in every field but the cycle bit |
| XhciEvents.ParseTakesAllPosted | Kernel/Modules/XHCIController.cpp:592-637 | on a ring that a correct producer filled, one call takes exactly the posted, unhandled events in order and stops with the producer's index and cycle state |
| XhciDriver.Xhci.constructor | Kernel/Modules/XHCIController.cpp:378-414 | all transfer rings and the command ring start as empty rings, no two of them sharing memory |
| XhciDriver.Xhci.EnqueueCommand | Kernel/Modules/XHCIController.cpp:905-919 | the command ring takes one enqueue step, which puts the caller's command into the slot in every field but the cycle bit; the slot used is returned and the counters go up; no transfer ring changes |
| XhciDriver.Xhci.SetEnqueueCommandPtr | Kernel/Modules/XHCIController.cpp:898-903 | the command ring gets the end marker, a TRB of zeros but for the cycle bit; nothing else changes |
| XhciDriver.Xhci.EnqueueTransfer | Kernel/Modules/XHCIController.cpp:921-936 | the endpoint's ring takes one enqueue step, which puts the caller's TRB into the slot in every field but the cycle bit; every other ring and endpoint is unchanged |
| XhciDriver.Xhci.SetEnqueueTransferPtr | Kernel/Modules/XHCIController.cpp:891-896 | the endpoint's ring gets the end marker, a TRB of zeros but for the cycle bit; every other ring is unchanged |
| XhciDriver.Xhci.ParseEvents | Kernel/Modules/XHCIController.cpp:589-638 | when the events taken name existing slots and endpoints, takes exactly those that are fresh from the dequeue pointer on, with their effects on endpoints, ports and pending commands in order, and moves pointer, cycle state and ERDP to where they end; no ring changes |
| XhciDriver.Xhci.HandleEvent | Kernel/Modules/XHCIController.cpp:597-628 | one event changes exactly the endpoint it names, or the pending count and the ports whose command it completes |
| XhciDriver.Xhci.AdvanceEvent | Kernel/Modules/XHCIController.cpp:594-595 | pointer and cycle state move on together, wrapping at the end of the segment |
| XhciDriver.Xhci.LinkPorts | Kernel/Modules/XHCIController.cpp:615-620 | exactly the ports whose command address the event names get its slot number |
| ClassTree.ForeachRealizedClassAndSubclass2 | Swift Compatibility Layer/Objective-C Runtime/runtime-private.h:1229-1246 | on any finite linked tree the walk ends and calls `code` on the preorder of the subtree of `top`, up to and including the first false |
| ClassTree.ForeachRealizedClassAndSubclass | Swift Compatibility Layer/Objective-C Runtime/runtime-private.h:1248-1253 | the void form calls every class of the subtree, in preorder |
| ClassTree.CallsStopAtFirstFalse | Swift Compatibility Layer/Objective-C Runtime/runtime-private.h:1233-1234 | the calls are an initial part of the preorder, all but the last answered true, cut short only right after a false |
| ClassTree.CallsCoverSubtree | Swift Compatibility Layer/Objective-C Runtime/runtime-private.h:1233-1245 | no class is called twice, none outside the subtree, and all of it unless cut short |
| ClassTree.PreorderNoRepeats | Swift Compatibility Layer/Objective-C Runtime/runtime-private.h:1236-1243 | linked classes occur once in the preorder, from the links alone |
| ClassTree.LinksDetermineTree | Swift Compatibility Layer/Objective-C Runtime/runtime-private.h:1236-1243 | first-subclass and sibling links determine the tree below a class |
| ClassTree.RootNotBelow | Swift Compatibility Layer/Objective-C Runtime/runtime-private.h:1239-1242 | `top` does not occur below itself, so that the climb can stop on comparing with it |
| ClassTree.SiblingsDisjoint | Swift Compatibility Layer/Objective-C Runtime/runtime-private.h:1239-1243 | a subclass's tree shares no class with those of its following siblings |
| ClassTree.OnPath | Swift Compatibility Layer/Objective-C Runtime/runtime-private.h:1239-1243 | the superclass and sibling pointers of the class the walk stands on lead where its path from `top` says |
| ClassTree.Descend | Swift Compatibility Layer/Objective-C Runtime/runtime-private.h:1236-1237 | going to the first subclass leaves the same classes to visit |
| ClassTree.Sideways | Swift Compatibility Layer/Objective-C Runtime/runtime-private.h:1243 | going to the next sibling starts on the classes left to visit |
| ListArray.ListArrayTT.AttachLists | Swift Compatibility Layer/Objective-C Runtime/runtime-private.h:654-683 | in all three representations the lists become the added ones followed by the old ones, with no null entry |
| ListArray.LastBatchLeads | Swift Compatibility Layer/Objective-C Runtime/runtime-private.h:654-683 | after any series of attachments the last batch comes first and the earlier ones follow as they were |
| ListArray.ListArrayTT.Count | Swift Compatibility Layer/Objective-C Runtime/runtime-private.h:605-614 | the number of elements of the flattened lists, in 32 bits |
| ListArray.TotalIsLength | Swift Compatibility Layer/Objective-C Runtime/runtime-private.h:605-614 | the sum of the list lengths is the length of the flattened sequence |
| ListArray.ListArrayTT.CountLists | Swift Compatibility Layer/Objective-C Runtime/runtime-private.h:626-634 | the number of lists, whatever the representation |
| ListArray.ListArrayTT.ListAt | Swift Compatibility Layer/Objective-C Runtime/runtime-private.h:636-652 | the list pointers from begin to end are the lists in order |
| ListArray.ListArrayTT.Duplicate | Swift Compatibility Layer/Objective-C Runtime/runtime-private.h:697-714 | a new container in the same representation, each list a new copy with the same elements |
| ListArray.Iterator.Next | Swift Compatibility Layer/Objective-C Runtime/runtime-private.h:570-582 | one element on, into the next list at the end of one; the assertion fails exactly on a used-up list |
| ListArray.Iterator.Differs | Swift Compatibility Layer/Objective-C Runtime/runtime-private.h:563-568 | iterators of one container differ exactly when their positions do |
| ListArray.ReadOne | Swift Compatibility Layer/Objective-C Runtime/runtime-private.h:570-582 | one step reads the next element of the flattened sequence |
| ListArray.ReadAll | Swift Compatibility Layer/Objective-C Runtime/runtime-private.h:541-624 | begin-to-end iteration goes through if and only if no list is empty, and then gives the flattened sequence; otherwise it has given everything before the first empty list |
| ListArray.ReadPastEmptyList | Swift Compatibility Layer/Objective-C Runtime/runtime-private.h:541-624 | a container of three lists, the second one empty, of which only the first is read |
| PageTables.PteFields | Kernel/Kernel/i386/pmap.h:164-179 | an entry built from an aligned frame, flags and the no-execute bit gives back each of them |
| PageTables.OrIsPlus | Kernel/Kernel/i386/i386_init.c:83 | combining frame and flags with `or` adds them |
| PageTables.KvAddrBits | Kernel/Kernel/i386/pmap.h:135-140 | the bit form of KVADDR in the upper half is the sum the model uses |
| PageTables.SlotIndices | Kernel/Kernel/i386/pmap_internal.h:64-114 | the four table indices of an upper-half address, from its offset in its PML4 slot |
| PageTables.CanonicalIff | Kernel/Kernel/i386/pmap_internal.h:55-66 | canonical addresses are those with bits 47 to 63 equal |
| PageTables.Pml4NullIff | Kernel/Kernel/i386/pmap_internal.h:55-66 | the first level of the kernel's walk is NULL exactly for addresses that are not canonical |
| PageTables.WalkKeepsOffset | Kernel/Kernel/i386/pmap_internal.h:55-117 | whatever the tables hold, the processor's walk keeps the offset in the page |
| PageTables.UpperLevelsBind | Kernel/Kernel/i386/pmap_internal.h:55-117 | in pages of every size the upper levels can take away writing and execution |
| PageTables.GigabytePage | Kernel/Kernel/i386/pmap_internal.h:55-117 | a large page of the third level is a gigabyte where its entry says |
| BootTables.WalkIsIntended | Kernel/Kernel/i386/i386_init.c:110-213 | for every 64-bit address the processor's walk of the boot tables gives the intended map: physical memory at the physical map, writable and not executable; kernel pages to themselves; alias pages 0 and 1 to IDT (read-only) and GDT; nothing else |
| BootTables.PhysmapSlot | Kernel/Kernel/i386/i386_init.c:130-154 | in the physical map's slot exactly NPHYSMAP gigabytes from the random gigabyte on are mapped, each to its own physical address |
| BootTables.KernelSlot | Kernel/Kernel/i386/i386_init.c:193-203 | the kernel's slot maps page by page to itself up to the end of the kernel tables, except for the aliases |
| BootTables.ReadThroughPhysmap | Kernel/Kernel/i386/pmap_internal.h:45-53 | a table below NPHYSMAP gigabytes is read through the physical map without panic, and the right word is found |
| BootTables.PhysmapPanicIff | Kernel/Kernel/i386/pmap_internal.h:45-53 | exactly the tables from NPHYSMAP gigabytes on end in the panic |
| BootTables.PteFound | Kernel/Kernel/i386/pmap_internal.h:100-117 | for every address `pmap_pte` ends without panic or fault in the listed entry, or in NULL |
| BootTables.PteAgreesWithHardware | Kernel/Kernel/i386/pmap_internal.h:55-117 | NULL exactly outside the physical map and the range of the level-1 tables, which are unmapped; else the entry found is valid exactly when the processor maps the address, and then stands for the same physical address |
| BootTables.NullIsUnmappedIff | Kernel/Kernel/i386/pmap_internal.h:100-117 | NULL and unmapped coincide if and only if the address is not between the end of the kernel's tables and the end of the level-1 tables |
| BootTables.FirstZeroEntry | Kernel/Kernel/i386/i386_init.c:193-197 | the page behind the kernel's tables is unmapped and yet has an entry |
| BootInit.Boot.AllocPages | Kernel/Kernel/i386/i386_init.c:70-77 | zeroes exactly the allocated pages, moves `physfree` over them and returns their kernel address |
| BootInit.Boot.FillKpt | Kernel/Kernel/i386/i386_init.c:79-87 | consecutive entries for consecutive pages, no other word changed |
| BootInit.Boot.PhysmapInit | Kernel/Kernel/i386/i386_init.c:110-158 | the level-3 and level-2 tables of the physical map and its PML4 entry, no earlier word changed; base and limit |
| BootInit.Boot.DescriptorAliasInit | Kernel/Kernel/i386/i386_init.c:160-183 | exactly the two alias entries are replaced |
| BootInit.Boot.IdlePtsInit | Kernel/Kernel/i386/i386_init.c:185-213 | afterwards all six tables are in place as `BootTables` needs them |
| BootInit.AllTablesBuilt | Kernel/Kernel/i386/i386_init.c:187-207 | memory laid out word by word as the code leaves it holds all six tables |
| MemoryRegions.ClipKeepsPages | Kernel/Kernel/i386/i386_vm_init.c:346-373 | clipping keeps exactly the pages of a non-empty range except the first and the last 32-bit page |
| MemoryRegions.EmptyRange | Kernel/Kernel/i386/i386_vm_init.c:346-373 | an empty range is dropped, unless it starts on page 0: then it becomes all of memory |
| MemoryRegions.UsableIff | Kernel/Kernel/i386/i386_vm_init.c:382-448 | the consolidation of types finds exactly the loader, boot-services and conventional memory that the firmware does not keep at run time |
| MemoryRegions.AttributeBits | Kernel/Platform/platform/efi.h:200-201 | the runtime and reserved attributes are bits 63 and 59, whatever the other bits |
| MemoryRegions.ContributionIsIntendedIff | Kernel/Kernel/i386/i386_vm_init.c:346-541 | a usable range gives out exactly those of its own pages that it should if and only if it is not empty on page 0 (modulo 2^32), not beyond 32-bit page numbers, and does not start below the first available page and end on it |
| MemoryRegions.PlaceKeepsInv | Kernel/Kernel/i386/i386_vm_init.c:543-564 | merging or appending keeps the table sorted and disjoint and frees exactly the new region's pages |
| MemoryRegions.StepKeepsInv | Kernel/Kernel/i386/i386_vm_init.c:338-566 | so does one turn of the loop, through clipping, the low range and the split |
| MemoryRegions.NeverFull | Kernel/Kernel/i386/i386_vm_init.c:342-345 | up to 127 ascending ranges never fill the table, nor split into its last slot |
| MemoryRegions.OverrunReached | Kernel/Kernel/i386/i386_vm_init.c:342-345 | 127 single pages and a range around the first available page, for which only one slot is then left |
| MemoryRegions.PanicIff | Kernel/Kernel/i386/i386_vm_init.c:468-472 | the loop panics if and only if more usable ranges are reserved than there is room for |
| MemoryRegions.BuildMeaning | Kernel/Kernel/i386/i386_vm_init.c:338-566 | the finished table is sorted and disjoint, and its free pages are exactly those that the ranges contribute |
| MemoryRegions.BuildRecords | Kernel/Kernel/i386/i386_vm_init.c:338-566 | the table covers exactly the pages of the ranges, each with the attribute of its range; the recorded indices are exactly those of the reserved regions with free pages; `avail_end` is the address of the highest page, and `avail_remaining` the count of the ranges |
| MemoryRegions.FreePagesAreIntendedIff | Kernel/Kernel/i386/i386_vm_init.c:338-566 | for every ascending map, the free pages are the ranges' own usable pages from the first available one on, and the low pages of reserved ranges below it and below the kernel, if and only if every range is sound in that sense |
| MemoryRegions.UnsoundGivesOut | Kernel/Kernel/i386/i386_vm_init.c:505-541 | a range in 32-bit page numbers that is not sound gives out a page that no range should give out, below the first available page unless the range is empty |
| MemoryRegions.SortedFreePagesIff | Kernel/Kernel/i386/i386_vm_init.c:338-566 | for sorted non-empty ranges in 32-bit page numbers the free pages are the intended ones if and only if no usable range starts below the first available page and ends on it |
| MemoryRegions.ExposedExample | Kernel/Kernel/i386/i386_vm_init.c:505-541 | a memory map of one range in which page 4, below the first available page 10, is given out |
| MemoryRegions.EmptyRangeExample | Kernel/Kernel/i386/i386_vm_init.c:346-373 | a memory map of one empty range in which page 1000 is given out |
| MemoryRegions.HighRangeExample | Kernel/Kernel/i386/i386_vm_init.c:346-373 | a memory map of ten pages from page 2^32 + 20 on in which page 25 is given out, and none of the ten |
| MemoryRegions.TrimMeaning | Kernel/Kernel/i386/i386_vm_init.c:644-659 | a positive budget leaves a page measure of the budget, or all of it; only the last region kept is cut |
| MemoryRegions.TrimStaysSorted | Kernel/Kernel/i386/i386_vm_init.c:644-659 | trimming keeps the table sorted and disjoint |
| MemoryRegions.TrimKeepsFree | Kernel/Kernel/i386/i386_vm_init.c:644-661 | exactly the free pages up to the cut stay free, the page at `avail_end` itself among them |
| MemoryRegions.HighestBounds | Kernel/Kernel/i386/i386_vm_init.c:648-661 | no kept region that holds a counted page ends above `avail_end` |
| MemoryRegions.HighestReached | Kernel/Kernel/i386/i386_vm_init.c:648-661 | one of them ends exactly there |
| VmInit.VmInit.ReadMemoryMap | Kernel/Kernel/i386/i386_vm_init.c:338-566 | the loop over the array leaves exactly the table that the ranges build, or panics |
| VmInit.VmInit.AddRange | Kernel/Kernel/i386/i386_vm_init.c:449-565 | one turn of the loop, with the moving pointers, is one step of the table |
| VmInit.VmInit.ClipRange | Kernel/Kernel/i386/i386_vm_init.c:346-373 | the first and last page in wrapping 32-bit arithmetic, or nothing, as the clipping of the range has them |
| VmInit.VmInit.PlaceLow | Kernel/Kernel/i386/i386_vm_init.c:474-504 | the array then holds the table with the range added from page 3 on, already allocated, or free and indexed when it is reserved and below the kernel |
| VmInit.VmInit.PlaceSplit | Kernel/Kernel/i386/i386_vm_init.c:505-530 | the array then holds the table with the range added in two slots: an allocated region below the first available page, a free one from it on |
| VmInit.VmInit.PlaceWhole | Kernel/Kernel/i386/i386_vm_init.c:531-541 | the array then holds the table with the range added as one free region, indexed when it is reserved |
| VmInit.VmInit.Account | Kernel/Kernel/i386/i386_vm_init.c:543-564 | the array then holds the table with the new region counted and either merged into the previous one or appended |
| VmInit.VmInit.TrimRegions | Kernel/Kernel/i386/i386_vm_init.c:644-661 | the array is cut to the trimmed regions, and `avail_end` is one past the highest page counted |
| VmInit.VmInit.CountPages | Kernel/Kernel/i386/i386_vm_init.c:645-651 | stops at the region's end or after the budget, whichever comes first, with the rest of the budget and the highest page counted |
| SvgaFifo.CommitAppends | Kernel/Modules/SVGA.swift:233-239 | moving NextCommand over bytes that fit appends exactly these bytes to what the device has to read |
| SvgaFifo.CommitGrowsIff | Kernel/Modules/SVGA.swift:233-239 | a commit makes the pending contents longer by its length if and only if there is room for it |
| SvgaFifo.ReadTakes | Kernel/Modules/SVGA.swift:167-187 | the device's reading takes bytes off the front and makes as much room |
| SvgaFifo.WriteFree | Kernel/Modules/SVGA.swift:226-227 | bytes written into free room leave every unread byte alone |
| SvgaFifo.TwoCopies | Kernel/Modules/SVGA.swift:224-227 | the two copies out of the bounce buffer lay the command from NextCommand on, round the end, and spare the unread bytes |
| SvgaFifo.RoomTest | Kernel/Modules/SVGA.swift:171-187 | the case distinction on NextCommand and Stop decides room correctly |
| SvgaFifo.FitsWhenDrained | Kernel/Modules/SVGA.swift:150-153 | a command fits at some position of Stop if and only if it is shorter than Max - Min |
| SvgaFifo.Svga.CompareWithStop | Kernel/Modules/SVGA.swift:168-187 | one look at Stop finds exactly whether there is contiguous room, room only round the end, or none |
| SvgaFifo.Svga.TryReserve | Kernel/Modules/SVGA.swift:167-203 | one turn of the loop: in place, in the bounce buffer, or full exactly when there is no room |
| SvgaFifo.Svga.FIFOReserve | Kernel/Modules/SVGA.swift:139-204 | refuses exactly too large, misaligned or nested reservations; otherwise reserves the bytes, in place exactly when they fit before the end of the ring (and the host can reserve, or they are one word at most), else in the bounce buffer, or is still waiting because the device has not read enough; Max - Min bytes are never reserved; committed bytes stay committed |
| SvgaFifo.Svga.DeviceRead | Kernel/Modules/SVGA.swift:167-187 | the device may read at any time: what it consumes and what is pending stay what was committed, and a reservation stays valid |
| SvgaFifo.Svga.FIFOCommit | Kernel/Modules/SVGA.swift:206-243 | appends exactly the bytes presented to the pending contents, in place or through the bounce buffer, for any number there is room for; nothing without a reservation or without the capability |
| SvgaFifo.Svga.FIFOCommitAll | Kernel/Modules/SVGA.swift:245-247 | the whole reservation is appended, and nothing stays reserved |
| SvgaFifo.Svga.FIFOReserveCommand | Kernel/Modules/SVGA.swift:249-253 | a reservation of four more bytes that begins with the bytes of the command number, which read back as it, refused exactly when it is too large, misaligned or nested |
| SvgaFifo.WordBytes | Kernel/Modules/SVGA.swift:249-253 | the four bytes of a stored word read back as the word, lowest byte first |
| SvgaFifo.WordsRead | Kernel/Modules/SVGA.swift:255-262 | so does every word of a command |
| SvgaFifo.Svga.SendUpdate | Kernel/Modules/SVGA.swift:255-262 | commits exactly the five words of the update command |
| SvgaFifo.Svga.Transmit | Kernel/Modules/SVGA.swift:139-247 | reserve, fill and commit any command, with the device reading before every byte and before the commit: exactly its bytes are appended to what was committed |
| DeviceTreeFormat.WordRoundTrip | Kernel/Platform/platform/device_tree.h:69-81 | the 32-bit fields of the format read back |
| DeviceTreeFormat.Round4 | Kernel/Platform/DeviceTree.c:21 | the next multiple of four |
| DeviceTreeFormat.EncodeProp | Kernel/Platform/DeviceTree.c:22 | a property takes its name field, its length and its value, up to the next multiple of four bytes |
| DeviceTreeFormat.EncodingExample | Kernel/Platform/platform/device_tree.h:69-81 | the bytes of a node with an aligned and a padded property and a child |
| DeviceTreeFormat.NameSpelled | Kernel/Platform/DeviceTree.c:136 | the property that names a node is called name |
| DeviceTreeFormat.StrcmpOfField | Kernel/Platform/DeviceTree.c:196-197 | comparing a field compares the string in it, whenever the comparison is decided inside the field |
| DeviceTreeFormat.AllVisible | Kernel/Platform/DeviceTree.c:187 | in a tree whose nodes all have a property nothing is cut off |
| DeviceTreeFormat.StopsAtEndIff | Kernel/Platform/DeviceTree.c:187-188 | a failed search stops at the end of the tree if and only if all its nodes have properties |
| DeviceTreeFormat.SearchIsCompleteIff | Kernel/Platform/DeviceTree.c:182-212 | the search finds the first match of the whole listing if and only if every match behind a node without properties comes after another match before that node |
| DeviceTreeFormat.HiddenMatch | Kernel/Platform/DeviceTree.c:187 | a tree whose encoding lies in memory and in which the search finds nothing although a node matches |
| DeviceTreeFormat.VisibleConcat | Kernel/Platform/DeviceTree.c:206-210 | what a node without properties cuts off of a listing in two parts |
| DeviceTreeFormat.FirstMatchIsFirst | Kernel/Platform/DeviceTree.c:191-203 | the match found is that of the first matching entry |
| DeviceTreeFormat.FirstNamed | Kernel/Platform/DeviceTree.c:122-149 | the first child of a name: it has the name, none before it has, and none has if there is no such child |
| DeviceTreeFormat.ChildNamedMeaning | Kernel/Platform/DeviceTree.c:122-149 | the child found is the first one of that name; it is found if and only if every child before it has a name, and properties in all its nodes |
| DeviceTreeFormat.WalkOfNames | Kernel/Platform/DeviceTree.c:237-251 | any written form of a list of names leads where the names lead |
| DeviceTreeFormat.WalkHasNames | Kernel/Platform/DeviceTree.c:237-251 | a path that leads anywhere is a written form of names |
| DeviceTreeFormat.LookupMeaning | Kernel/Platform/DeviceTree.c:229-253 | lookup succeeds only on written forms (one leading separator, trailing ones, no empty or over-long component), of which a path has at most one, and follows the names |
| DeviceTreeFormat.DescendIff | Kernel/Platform/DeviceTree.c:237-251 | going down leads to the first child of each name if and only if nothing on the way hides one |
| DeviceTreeFormat.LookupIff | Kernel/Platform/DeviceTree.c:214-254 | the same for a whole path, and in every tree with names and properties throughout the path leads to the first child of each name |
| DeviceTreeFormat.HiddenChild | Kernel/Platform/DeviceTree.c:129-146 | a tree in which the path `a` leads nowhere although a child is named a |
| DeviceTreeFormat.TwoTrailingSeparators | Kernel/Platform/DeviceTree.c:105-109 | a tree in which the path `a//` leads to the child named a |
| DeviceTreeFormat.NamesUnique | Kernel/Platform/DeviceTree.c:229-245 | a path spells at most one list of names |
| DeviceTree.DeviceTree.SkipProperties | Kernel/Platform/DeviceTree.c:56-71 | the end of the properties, NULL for a node without any |
| DeviceTree.DeviceTree.SkipTree | Kernel/Platform/DeviceTree.c:73-87 | the node's offset plus its encoded length, when all its nodes have properties |
| DeviceTree.DeviceTree.SkipChildren | Kernel/Platform/DeviceTree.c:83-86 | the end of all children, NULL if one of them cannot be skipped |
| DeviceTree.DeviceTree.FindEntry | Kernel/Platform/DeviceTree.c:182-212 | the first matching node in preorder before any node without properties; on failure the cursor stands at that node, or at the end of the tree |
| DeviceTree.DeviceTree.SearchProps | Kernel/Platform/DeviceTree.c:190-203 | finds a matching property if and only if there is one, or moves the cursor past all of them |
| DeviceTree.DeviceTree.SearchChildren | Kernel/Platform/DeviceTree.c:205-211 | continues the search over the children as one preorder search |
| DeviceTree.DeviceTree.DTFindEntry | Kernel/Platform/DeviceTree.c:172-180 | the first matching node of the whole tree before any node without properties, nothing without a tree |
| DeviceTree.AfterChild | Kernel/Platform/DeviceTree.c:206-210 | the search of one child in terms of the search of the whole listing |
| DeviceTree.ListingOfNode | Kernel/Platform/DeviceTree.c:184-188 | every node of the listing lies in memory at its listed offset |
| DeviceTree.DeviceTree.DTGetProperty | Kernel/Platform/DeviceTree.c:383-404 | position and size of the value of the first property of that name, if there is one |
| DeviceTree.DeviceTree.FindProperty | Kernel/Platform/DeviceTree.c:392-402 | the loop over the properties finds the first of that name |
| DeviceTree.DeviceTree.FindChild | Kernel/Platform/DeviceTree.c:122-149 | the offset of the child of that name |
| DeviceTree.DeviceTree.GetNextComponent | Kernel/Platform/DeviceTree.c:101-120 | the next component and the rest of the path, nothing for an over-long one |
| DeviceTree.DeviceTree.DTLookupEntry | Kernel/Platform/DeviceTree.c:214-254 | finds the entry that the abstract lookup finds |
| DeviceTree.EntryIterator.DTIterateEntries | Kernel/Platform/DeviceTree.c:340-358 | the next child of the scope, NULL if the skipping before it met a node without properties, done after the last |
| DeviceTree.EntryIterator.DTRestartEntryIteration | Kernel/Platform/DeviceTree.c:360-381 | iteration starts over at the first child of the scope |
| DeviceTree.EntryIterator.AllEntries | Kernel/Platform/DeviceTree.c:340-358 | iterating gives one answer per child, in order, each the child's entry as far as it can be reached |
| DeviceTree.AllReachedIff | Kernel/Platform/DeviceTree.c:345-357 | every child is given if and only if the scope and everything in all its children but the last has properties |
| DeviceTree.UnreachedChild | Kernel/Platform/DeviceTree.c:345-357 | a node of whose two children only the first is given |
| Smbios.MemoryBuffer.ReadByte | Kernel/Swift Extensions/MemoryBuffer.swift:32-46 | one byte inside the buffer, or nothing |
| Smbios.MemoryBuffer.ReadWord | Kernel/Swift Extensions/MemoryBuffer.swift:32-46 | two bytes, or nothing and no movement |
| Smbios.MemoryBuffer.SubBufferToEnd | Kernel/Swift Extensions/MemoryBuffer.swift:62-68 | the rest of the buffer, empty past its end |
| Smbios.MemoryBuffer.ScanAsciizString | Kernel/Swift Extensions/MemoryBuffer.swift:103-116 | the string up to the first NUL, or nothing when the buffer ends first |
| Smbios.ScanEncodedString | Kernel/Swift Extensions/MemoryBuffer.swift:103-116 | scanning an encoded string gives it back and consumes its NUL |
| Smbios.ScanEncodedStrings | Kernel/Modules/SMBIOS.swift:93-103 | scanning an encoded string set gives it back and consumes exactly it |
| Smbios.ParseEncoded | Kernel/Modules/SMBIOS.swift:82-105 | reading the encoding of a structure gives it back and consumes exactly it |
| Smbios.ParseEncodedTable | Kernel/Modules/SMBIOS.swift:79-106 | the same for a table of any number of structures |
| Smbios.Smbios.ReadTables | Kernel/Modules/SMBIOS.swift:79-106 | the table loop appends exactly what parsing gives, on any memory contents, and leaves the offset there |
| Smbios.Smbios.ReadEntry | Kernel/Modules/SMBIOS.swift:82-105 | one turn of the loop on any memory: the structure it appends, if none of the reads fails, and the offset it leaves |
| Smbios.ParseOneIff | Kernel/Modules/SMBIOS.swift:82-105 | a structure is found if and only if its header, its formatted area and two bytes behind it lie in the buffer and its length covers the header; how much is consumed otherwise |
| Smbios.ParseOneBounds | Kernel/Modules/SMBIOS.swift:82-105 | reading goes forward and never past the buffer, and over the whole structure found |
| Smbios.Smbios.ReadStrings | Kernel/Modules/SMBIOS.swift:94-102 | the strings up to the first empty one, or up to the end of the buffer, and the offset behind them |
| Smbios.GetStringMeaning | Kernel/Modules/SMBIOS.swift:154-165 | the string whose 1-based number stands at that offset of the encoded structure, nothing for 0, unknown numbers and offsets outside the formatted area |
| BootArgsText.GetValOfPrint | Kernel/Platform/bootargs.c:150-227 | reading a printed number of any base, sign and suffix that fits 64 bits gives it back, except a decimal zero with a suffix |
| BootArgsText.ReadDigits | Kernel/Platform/bootargs.c:191-219 | reading printed digits gives the number |
| BootArgsText.NumberIff | Kernel/Platform/bootargs.c:150-227 | a text is taken for a number if and only if it is a sign, the prefix of a base, digits of that base and a suffix |
| BootArgsText.SuffixMeaning | Kernel/Platform/bootargs.c:200-217 | the suffixes are k, m and g in either case, for the powers of 1024 |
| BootArgsText.CaseDoesNotMatter | Kernel/Platform/bootargs.c:191-219 | digits and suffixes are read alike in upper and lower case |
| BootArgsText.TokensOfLine | Kernel/Platform/bootargs.c:89-147 | splitting words with gaps of spaces and tabs between them gives the words |
| BootArgsText.FoundIff | Kernel/Platform/bootargs.c:93-147 | an argument is found if and only if some word of the line answers to its name |
| BootArgsText.AnswersIff | Kernel/Platform/bootargs.c:99-109 | a word answers if and only if it is the name, an equal sign and a value, or a flag that is the name itself |
| BootArgsText.LastValueWins | Kernel/Platform/bootargs.c:127-138 | of several `name=value` words the last one counts |
| BootArgsText.FirstAnswerWins | Kernel/Platform/bootargs.c:110-126 | a flag, or a name with a leading underscore, is settled by the first answer |
| BootArgsText.LastWriteStands | Kernel/Platform/bootargs.c:110-138 | the buffer ends up beginning with the last write: the number's bytes, or a prefix of the value and a NUL |
| BootArgsText.StoredNumber | Kernel/Platform/bootargs.c:45-72 | the stored bytes are the number modulo the width asked for |
| BootArgsText.LastNumberStands | Kernel/Platform/bootargs.c:76-227 | when the last answer to an ordinary name is the name, an equal sign and a printed number, the buffer ends up beginning with that number's bytes |
| BootArgsText.WritesWithinLength | Kernel/Platform/bootargs.c:110-138 | for a name without a leading underscore no write is longer than the length asked for |
| BootArgsText.UnderscoredFitsIff | Kernel/Platform/bootargs.c:119-126 | for a name with one, none is if and only if the length is at least 17 or the value of the first answer fits with its NUL |
| BootArgsText.FiveBytesForFour | Kernel/Platform/bootargs.c:119-126 | `_x=abcd` asked for with a length of 4, for which five bytes are written |
| BootArgsText.RoomSuffices | Kernel/Platform/bootargs.c:110-138 | the length, or 17 bytes for a name with an underscore, is always enough |
| BootArgsText.RestUntouched | Kernel/Platform/bootargs.c:110-138 | bytes behind all writes stay as they were |
| BootArgs.ParseBootArgn | Kernel/Platform/bootargs.c:76-148 | the pointer loop refines the search over words: found if and only if a word answers, and the buffer as all answers in order leave it |
| BootArgs.Answer | Kernel/Platform/bootargs.c:110-138 | what one matching word writes, and whether the search ends |
| BootArgs.FindNameEnd | Kernel/Platform/bootargs.c:99-107 | the name is what precedes the first equal sign or separator |
| BootArgs.SkipSeparators | Kernel/Platform/bootargs.c:144-145 | skipping white space changes no word |
| BootArgs.SkipWord | Kernel/Platform/bootargs.c:141-142 | skipping a word goes exactly past it |
| BootArgs.ArgStrLcpy | Kernel/Platform/bootargs.c:34-43 | a prefix of the word within the limit, a NUL, and nothing else written |
| BootArgs.ArgNumCpy | Kernel/Platform/bootargs.c:45-72 | the number at the width asked for, and nothing else written |
| BootArgs.GetValAt | Kernel/Platform/bootargs.c:150-227 | the loop over digits reads the value text |
| BootArgs.ReadDigitsAt | Kernel/Platform/bootargs.c:191-223 | the digit loop, modulo 2^64, with the suffix that may end it and every way to fail |
| Rasteriser.Video.DrawLine | Kernel/Swift Extensions/Video.swift:44-55 | a horizontal or vertical line paints exactly its box |
| Rasteriser.Video.DrawFilledCircle | Kernel/Swift Extensions/Video.swift:99-126 | the loop ends, and exactly the points at or inside the circle except its four axis tips are painted |
| Rasteriser.ScanPoint | Kernel/Swift Extensions/Video.swift:109-124 | one turn paints exactly one more row of the disc and the columns it reaches |
| Rasteriser.Advance | Kernel/Swift Extensions/Video.swift:114-123 | the error sign finds the end of the next row |
| Rasteriser.NothingMissing | Kernel/Swift Extensions/Video.swift:109 | when the loop ends no point of the disc is missing |
| Rasteriser.Video.DrawCorners | Kernel/Swift Extensions/Video.swift:193-223 | the corner loop ends; every offset of the arc misses the circle by at most its ordinate; the eight images of each offset are painted, or the four spans between them |
| Rasteriser.Video.DrawRoundedRectangle | Kernel/Swift Extensions/Video.swift:191-233 | unfilled, exactly the corner points and the four edges are painted |
| Rasteriser.EightMeaning | Kernel/Swift Extensions/Video.swift:214-221 | the images of an arc point lie, at every corner, its two offsets outside the corner's centre, in either order |
| Rasteriser.FourSpansMeaning | Kernel/Swift Extensions/Video.swift:209-212 | the spans fill the rows of these images from the left ones to the right ones |
| Rasteriser.CornersOfKind | Kernel/Swift Extensions/Video.swift:199-223 | the corners are the images of all arc points, points when unfilled and spans when filled |
| Rasteriser.FillWidthIsLeast | Kernel/Swift Extensions/Video.swift:208-212 | the width that filling needs is that of the narrower of the first two spans |
| Rasteriser.EdgesMeaning | Kernel/Swift Extensions/Video.swift:227-230 | the edges are the sides of the rectangle without the parts that are rounded off |
| Rasteriser.NextOrdinate | Kernel/Swift Extensions/Video.swift:200-207 | the sign of f keeps the next offset within its error bound |
| Rasteriser.ArcStep | Kernel/Swift Extensions/Video.swift:199-207 | one turn extends the arc by the next offset |
| Rasteriser.ArcUnique | Kernel/Swift Extensions/Video.swift:193-207 | there is only one arc with these properties per radius |
| UsbTransfer.Transfer.InTransaction | Kernel/Modules/USBCommon.cpp:345-374 | the recursion asks the controller for exactly the packets of the transfer, one for an isochronous one; toggle and transaction slots as they must be |
| UsbTransfer.Transfer.OutTransaction | Kernel/Modules/USBCommon.cpp:376-397 | the same for writes |
| UsbTransfer.Transfer.Clamp | Kernel/Modules/USBCommon.cpp:354-359 | the division finds the number of packets that remain, wrapped to 16 bits |
| UsbTransfer.LeastCount | Kernel/Modules/USBCommon.cpp:354-359 | the number of packets is the least that holds the length, and one for none |
| UsbTransfer.RemainingPackets | Kernel/Modules/USBCommon.cpp:356-359 | the driver's division counts the packets after the first |
| UsbTransfer.FirstPacket | Kernel/Modules/USBCommon.cpp:367-373 | the packets are the first one and those of the rest with the toggle flipped |
| UsbTransfer.PacketsCountDown | Kernel/Modules/USBCommon.cpp:345-374 | the packets of a read count down to none remaining, follow each other in the buffer and alternate their toggles; an isochronous read is one packet |
| UsbTransfer.PacketsInside | Kernel/Modules/USBCommon.cpp:354-355 | no packet is longer than the packet size or leaves the buffer |
| UsbTransfer.NothingLost | Kernel/Modules/USBCommon.cpp:345-397 | the packets carry every byte of the buffer once and in order |
| Descriptors.FixDesc | Kernel/Kernel/i386/mp_desc.c:250-291 | after the rewriting in place the processor finds in every entry the base, limit, access and granularity, or the offset, selector, access and word count, that it spelled; the rest of the array is unchanged |
| Descriptors.FixEntry | Kernel/Kernel/i386/mp_desc.c:255-289 | one entry is rewritten, its neighbours are not touched |
| Descriptors.MovedDecodes | Kernel/Kernel/i386/mp_desc.c:255-288 | the rewritten entry decodes to what the written one meant |
| Descriptors.GateTypes | Kernel/Kernel/i386/seg.h:152-175 | the types that name gates, in 32-bit and in 64-bit tables |
| Descriptors.LayoutExamples | Kernel/Kernel/i386/seg.h:62-122 | a segment and a gate, as written and as the processor reads them |
| Descriptors.LayoutExamples64 | Kernel/Kernel/i386/seg.h:71-131 | the same in 16-byte entries |
| Descriptors.FixDesc64 | Kernel/Kernel/i386/mp_desc.c:294-339 | the same for 16-byte entries with interrupt stacks; entries of type zero become all zero |
| Descriptors.FixEntry64 | Kernel/Kernel/i386/mp_desc.c:304-338 | one 16-byte entry is rewritten, its neighbours are not touched |
| Descriptors.Moved64Decodes | Kernel/Kernel/i386/mp_desc.c:311-333 | the rewritten 16-byte entry decodes to what the written one meant |

## Left out

- The copy of a TRB into its slot is one step; the `memcpy` that does it is not part of this model. The write that
  hands over the Link is a step of its own. Status and control bits that the rings do not look at are grouped.
- XhciDriver.Xhci.ParseEvents: the doorbells rung after a stalled control transfer touch only registers and are not
  modelled; the transfer events taken must name an existing slot and endpoint, which the source assumes without a
  check.
- XhciDriver.Xhci.EnqueueCommand: the cycle bit written into the caller's TRB is returned as a result.
- The rest of the xHCI driver, and the event ring's set-up, which `start` does not contain.
- XhciEvents.FreshRingInv: takes a well-formed event ring as given, for the same reason.
- ClassTree.ForeachRealizedClassAndSubclass2: the block may depend on its earlier calls but does not change the links.
- ListArray.ListArrayTT.AttachLists: the number of lists must stay below 2^32, and attached lists are not null; the
  source wraps and crashes there. The flag bit in the pointer is a constructor of a datatype.
- Freeing list arrays, and the category and method-cache code around them.
- The processor's walk leaves out user rights, accessed and dirty bits, and protection keys; CR3 loading and TLBs.
- BootInit.Boot.IdlePtsInit: tables are written under the boot identity map, so a pointer is its low 32 bits; the NX
  check by cpuid is an assertion about the machine. The seed of the physical map is a parameter, a constant in the
  source.
- MemoryRegions.FreePagesAreIntendedIff: about fewer than 128 ranges that, as the code clips them, ascend without
  overlap, which sorted non-empty ranges in 32-bit page numbers do (`MemoryRegions.SortedFreePagesIff`), and a first
  available page from 3 to 2^32 - 2. An empty range on page 0 ascends only when it is the only usable one.
- Firmware byte counters, `sane_size`, the `maxpg` cut (its value is always 0) and the debug listing.
- VmInit.VmInit.ReadMemoryMap: a range around the first available page must not meet a table with one free slot; what
  the source overwrites behind the table there is not modelled.
- VmInit.VmInit.TrimRegions: takes the page budget as a parameter; `avail_remaining` is kept with its own measure, end
  minus base, which leaves out one page per region and the lower part of a split.
- SvgaFifo.Svga.FIFOReserve: halting is a list of amounts that the device reads meanwhile; FIFO registers are fields.
- SvgaFifo.Svga.FIFOCommit: there is room for what is committed; more would overwrite what the device has still to
  read.
- SvgaFifo.Svga.FIFOReserveCommand: the stop of the program on a refused reservation is the result `Rejected`.
- Screen refresh, mode setting and the register ports of the SVGA driver.
- DeviceTree.DeviceTree.DTLookupEntry: every name that is compared must have a NUL within its padding, or be no
  initial part of the name looked for, else the source reads on into what follows; the same holds for
  `DeviceTree.DeviceTree.DTFindEntry` and the values it compares. Nothing is asked of names and values not compared.
- Entering and leaving scopes of the device tree iterator, and the property iterator: their storage is a fixed
  address.
- Smbios.Smbios.ReadTables: the formatted area of a structure is taken from memory even where it leaves the buffer, as
  in the source; characters are bytes. Logging and the dictionary of product names are left out.
- BootArgs.ParseBootArgn: the buffer holds what is written; what a write past its end overwrites is not modelled.
  Lengths are not negative; characters are not limited to 8 bits; the branch for white space before an equal sign can
  never be taken and has no counterpart.
- Rasteriser.Video.DrawLine: sloped lines need floating point.
- Rasteriser.Video.DrawCorners: the rectangle drawn between the corners of a filled rounded rectangle uses sizes from
  the Graphics module, which is not part of this model.
- Antialiased circles, curves, text and alpha blending.
- UsbTransfer.Transfer.InTransaction: the transaction array has room for all packets, which the source does not check;
  what the controller does with a packet is not modelled.
- Descriptors.Decode64: reserved types are decoded like the gates whose code they share.
- The other drivers, trap dispatch, cpuid, ACPI and the allocator.

# Memory management and console of myOS

A model, with proofs, of the parts of the myOS kernel in which correctness is not visible in any one function:

* **The physical frame allocator** (`src/memory/pmem.c`, `src/memory/mmap.c`). The UEFI memory map becomes an array of
  frames, each free, locked or reserved, with cached counters. The array lives in the memory that it describes.
* **The 4-level page-table builder** (`src/memory/paging.c`, `src/memory/paging.h`). A 512-ary tree whose nodes are
  frames requested from that allocator and written through raw physical addresses, before and after CR3 is loaded.
* **Number formatting, printf and the text cursor** (`src/libc/stdlib.c`, `src/console/console.c`).

## How it is modelled

Physical memory is one array of 2^49 64-bit words (`MachineModel.Machine`). The frame array, the PML4 and every table are
words of that one array, and every access of the kernel goes through `Machine.Translate`, which is the identity until CR3 is
loaded and the walk of section 4.5 of the Intel SDM, volume 3A, afterwards. So nothing keeps a table, the PML4 and the
frame array apart except what the allocator does, and that is what is proved. `PhysicalMemory`, `PageTables` and
`Console` are classes with the fields of the C structures; loops are loops; bit-field assignments are separate
read-modify-write steps on a 64-bit word, proved equal to assignments of bits in the packed layout.

The chain of the main results:

1. A well-formed memory map (section 7.2 of the UEFI Specification: aligned, disjoint regions) gives pairwise distinct
   frames (`MemoryMap`), `Init` lays them out in order (`FrameLayout`, `Pmem`), and from 32 frames on its own array is never free.
2. The allocator is a deterministic machine on sequences of states (`FrameStates`), which the in-memory methods refine.
3. `PagingState.Sound` is the joint invariant of memory, abstract tree and allocator states. Every step of
   `map_vaddr_to_paddr` keeps it, each of the three stores to an entry included, with paging off and with paging on, and so
   does any run of allocator calls by other code that does not free what it does not own.
4. For every sound state the processor's walk is the abstract page map (`PageTree.WalkIsLookup`), so over every interleaving
   of mapping calls and allocator calls by other code it is the replay of the mappings (`RunTranslates`). Over runs of
   mapping calls the cost is counted exactly (`RunAccounting`), and the r-th new structure is in the r-th free frame
   (`Placement.RunInOrder`), so the whole tree is a function of what the run starts from.
5. Bounds on that cost give a condition on the memory map alone (`Kernel.EnoughMemoryBoots`) under which `Kernel.Boot`
   goes from the boot loader's memory to a verified page map, given as a function of the memory map and the devices
   (`InitMap.InitPage`).

Ghost parameters: `d` is the region that holds the frame array; `low` is the number of lowest array indices from which
structures may come (with a 32-bit read-back shift structures must lie below 2^32 bytes, and requests take the lowest
free frame first); `wideShift` says how wide the compiler makes the shift of a 32-bit bit-field. The memory map, the stack
address, the frame of the PML4, the framebuffer range, and the address and size of the HPET registers are inputs.

## What the code does not do

Where the code falls short of what it is for, the exact condition is proved:

* With 1 to 31 frames `init` locks no frame for its own array, which can then be handed out (`ArrayProtectedExact`).
* `pmem_request_frame` documents NULL as exhaustion; this holds iff no managed frame has address 0 (`NullMeansExhaustedExact`).
* `_identity_paging` says that the size is always rounded up to full pages. The count is the round-up iff
  n/4097 + n%4097 <= 4096 (`RunIsRoundUpExact`, `WholePagesExact`; 0 bytes get one page), so a framebuffer of 3840 by 2160
  pixels of 4 bytes gets 8099 of its 8100 pages (`LargeFramebufferMissed`). The pages visited are those of
  all n bytes iff (addr%4096) + n/4097 + n%4097 <= 4096, or the run goes round all 2^36 pages (`RunCoversExact`), so an
  area that starts inside a page can be missed in part although the count is the round-up (`UnalignedMissed`).
* The lock loop of `init` stays inside the frame array iff the regions from the array's own on have frames/32 pages
  (`LocksStayExact`); a map where it runs past the end is given (`LocksCanLeave`).
* A table address is read back correctly iff its frame is below 2^32, or 2^20 if the shift is 32 bits wide (`ReadBackExact`);
  an identity mapping is one iff the address is below 2^44 (`IdentityExact`).
* The self test of `init_paging` writes a byte of physical frame 0 and reads 123 back, so its panic is out of reach whatever
  the byte has hit (`TestByteReadBack`). This is about the data access alone; see "Left out" for instruction fetches. The
  page tables survive iff frame 0 is no structure or its entry 307 does not suffer (`TestStoreExact`), which is the same as
  that no page is struck (`SafeStrikesNone`). For every bootable machine the exact condition on the memory map, the stack, the
  PML4 and the devices is `BootSpares` (`BootSafeExact`, `SelfTestExact`): if 0 is the frame of the PML4, or the q-th free
  frame after `init` with q at most the number of structures needed, then the structure that comes to lie there (the PML4,
  or the q-th in the order of need) has nothing below its entry 307, or a table in a free frame that is 7 modulo 16. `Boot`
  says that under this condition every page is translated as `InitPage` says, and otherwise which ones are. Two special
  cases: frame 0 is neither free nor the PML4 (`ZeroNotFreeBoots`); it is the lowest free frame and becomes a PDPT
  (`ZeroFirstFreeBoots`). A small machine that boots, whose tables are damaged and which then cannot reach its framebuffer,
  is given (`StruckBoot.SelfTestCanStrike`, `BootSmallMachine`).
* A format cannot print a per cent sign: `%%` emits nothing (`NoPercent`).

## Model

| member | source | states |
|---|---|---|
| Kernel.Boot | src/kernel.c:39-49 | from memory as the boot loader leaves it, `init_physical_memory` followed by `init_paging` load CR3 with the PML4, log exactly the mappings of the managed frames, framebuffer, APIC, HPET and test page, and read 123 back in every case; the tree is the one the inputs determine; the whole invariant holds afterwards iff the inputs meet `BootSpares`, which is so iff no page is struck, and then every page is translated exactly as `InitPage` says (managed frames and device pages to their own numbers, the test page to frame 0, nothing else), the page 0xFEE00 of the local APIC to itself; otherwise the pages not struck are, and a struck translation goes on in the frame that the moved entry refers to; no word outside the frame array, the structures and frame 0 changes |
| Kernel.StartPaging | src/kernel.c:39-49 | after `init_physical_memory`, with the array in the largest conventional region, the empty PML4 is a valid page-table state whose frame states and free frames are those of the initial states; nothing outside the frame array is stored to |
| Kernel.EnoughMemoryBoots | src/memory/paging.c:146-200 | a condition on the memory map and the device sizes alone (usable pages against the sum of the per-region bounds) under which no request during the whole boot meets the NULL that the code does not handle, for either width of the read-back shift |
| Kernel.BootSafeExact | src/memory/paging.c:189-197 | for every bootable machine, wherever frame 0 is in the list of free frames and also if it holds the PML4: the test byte is safe in the tree of the boot iff the memory map, the stack, the PML4 and the devices meet `BootSpares` |
| Kernel.ZeroNotFreeBoots | src/memory/paging.c:189-197 | the self test of a bootable machine damages nothing when frame 0 is neither the PML4 nor free after `init`, a condition on the memory map and the stack alone |
| Kernel.ZeroFirstFreeBoots | src/memory/paging.c:189-197 | a case of `BootSafeExact`: when the memory map begins with a free frame 0, that frame becomes the PDPT of the first 512 GiB, and the self test spares the tables iff this one structure does not suffer |
| StruckBoot.SelfTestCanStrike | src/memory/paging.c:189-197 | a concrete memory map, with the PML4 above the link address of the kernel, and a framebuffer, with which the machine boots and the self test damages the page tables, for either width of the read-back shift: the page of the framebuffer is struck at the PDPT, whose entry then refers to page 7, 23 or 39, which no region holds |
| StruckBoot.BootSmallMachine | src/memory/paging.c:175-200 | booted with zeros in those three pages, that machine has mapped the page of its framebuffer to itself and yet the processor's walk of it ends in a page fault |
| StruckBoot.SmallMapBoots | src/memory/paging.c:146-200 | that machine meets every condition of a boot |
| Kernel.RootUntouched | src/memory/pmem.c:89-132 | initialising the frame array leaves a PML4 in a reserved region zeroed |
| Paging.PageTables.MapVaddrToPaddr | src/memory/paging.c:55-117 | before and after the CR3 load, through raw physical memory, and whatever allocator calls other code has made before: the walk of the mapped page becomes the frame of `paddr` (its low 32 frame bits), the walk of every other page is what it was, the call is added to the history and takes exactly one frame per structure missing on the path; no word of memory outside the frame array and the structures changes; the whole invariant (memory encodes a genuine tree, tree is locked frames, counters exact, every structure where the history puts it) is kept |
| Paging.PageTables.AllocatorCall | src/memory/pmem.c:137-194 | a permitted allocator call by other code between mapping calls changes no translation and no word outside the frame array and keeps the whole invariant, the history extended by the call |
| Paging.PageTables.Perform | src/memory/pmem.c:137-194 | each of the five calls is the step of the state machine on the frame states and stores nowhere but in the frame array |
| Paging.PageTables.NextTable | src/memory/paging.c:64-110 | the stage for one level: follows a present entry, or requests, zeroes and links a new structure in the lowest free frame; the tree gains exactly that node, one frame goes from free to locked; nothing outside the frame array and the structures changes |
| Paging.PageTables.RequestTable | src/memory/paging.c:69-69 | a request hands out the lowest free frame, now locked, which is no structure, not the PML4 and not part of the frame array; it stores in the frame array alone |
| Paging.PageTables.NewTable | src/memory/paging.c:67-70 | requesting and zeroing a structure disturbs neither the live structures nor the frame array, nor anything else outside the new frame |
| Paging.PageTables.LinkTable | src/memory/paging.c:72-75 | linking a zeroed spare frame, through the three separate bit-field stores, gives the tree with exactly one more empty structure, and changes the parent alone |
| Paging.PageTables.SetPage | src/memory/paging.c:112-116 | the last stage changes what one page maps to and nothing else of the tree, in the page table alone |
| Paging.PageTables.DescendToPageTable | src/memory/paging.c:64-110 | the three upper stages reach the page table of the page; the tree gains exactly the missing structures of its path; nothing outside the frame array and the structures changes |
| Paging.PageTables.MapPage | src/memory/paging.c:61-116 | the whole walk in terms of the tree: page map updated at one page, structures are the old ones and the path; nothing outside the frame array and the structures changes |
| Paging.PageTables.constructor | src/memory/paging.c:12-12 | an initialised allocator and a zeroed PML4 in a reserved region satisfy the whole invariant with an empty map and an empty history |
| Paging.PageTables.RunTranslates | src/memory/paging.c:55-117 | over any interleaving of mapping calls and allocator calls by other code: a page faults iff it was never mapped, and otherwise translates to the frame of its last mapping |
| Paging.PageTables.RunAccounting | src/memory/paging.c:64-110 | over any run of mapping calls the growth of `locked_frames` is the number of distinct 9-, 18- and 27-bit prefixes of the mapped pages |
| Paging.PageTables.ConsistentWalks | src/memory/paging.c:55-117 | the walk of section 4.5 of the Intel SDM volume 3A equals the abstract page map for every page |
| Paging.PageTables.EverythingSelfMapped | src/memory/paging.c:158-192 | once CR3 is loaded every structure, old or created later, every frame of the allocator's array and every frame that a request may still hand out translates to itself |
| Paging.PageTables.IsPagePresent | src/memory/paging.c:119-144 | the result is true iff the processor's walk finds the page |
| Paging.PageTables.FindPageTable | src/memory/paging.c:124-141 | the read-only descent ends at the page's table, or early only if the page is unmapped |
| Paging.PageTables.PeekTable | src/memory/paging.c:124-139 | one read-only stage returns the child in the tree, or None |
| Paging.PageTables.PeekPage | src/memory/paging.c:141-143 | the final read tells whether the page is mapped |
| Paging.PageTables.MapNext | src/memory/paging.c:153-153 | one identity mapping is progress by one element of the run, and pays exactly the growth of its cost |
| Paging.PageTables.ProgressOn | src/memory/paging.c:158-173 | making the mappings of one run and then of another is making those of both, at the sum of their costs |
| Paging.PageTables.FrameAddr | src/memory/paging.c:161-161 | the array entry read in round i still holds the address of managed frame i |
| Paging.PageTables.IdentityPaging | src/memory/paging.c:146-156 | the loop makes the least number k of mappings with n < 4097*k, of consecutive pages from the address on, with 64-bit wrap-around, each to its own frame, and takes exactly the structures that were missing |
| Paging.AreaLog | src/memory/paging.c:152-155 | what that leaves in the history, entry by entry and in numbers: entry i maps the page of the address 4096*i further on, modulo 2^64, to its own frame, cut to 32 bits |
| Paging.PageTables.IdentityPagingFrames | src/memory/paging.c:159-163 | the loop over the array maps every managed frame although its own calls change the array under it |
| Paging.FramesLog | src/memory/paging.c:159-162 | what that leaves in the history: entry i maps managed frame i to itself, cut to the 36 bits of a page and the 32 bits of the member |
| Paging.PageTables.IdentityPagingDevices | src/memory/paging.c:165-172 | framebuffer, APIC and HPET areas are mapped in this order at exactly the cost of their structures; the page 0xFEE00 is mapped to itself |
| Paging.DevicesLog | src/memory/paging.c:165-172 | what that leaves in the history: n/4097+1 pages of framebuffer, the page 0xFEE00 mapped to itself, m/4097+1 pages of HPET registers |
| Paging.PageTables.IdentityPagingMemory | src/memory/paging.c:158-173 | the whole function: log, structures and frames taken, and no store outside the frame array and the structures |
| Paging.PageTables.LoadCr3 | src/memory/paging.c:187-187 | switching from physical to translated access keeps every invariant, given the identity map of the managed frames |
| Paging.PageTables.WriteTestByte | src/memory/paging.c:193-193 | the store through the test mapping is one byte of frame 0, and changes no frame state |
| Paging.PageTables.AccessTestPage | src/memory/paging.c:193-197 | the byte read back is 123 in every case; the whole invariant holds afterwards iff the byte was safe |
| Paging.PageTables.EnablePaging | src/memory/paging.c:184-192 | identity mapping, CR3 load and test mapping, with their exact log and cost and without stores outside the frame array and the structures |
| Paging.PageTables.InitPaging | src/memory/paging.c:175-200 | after `init_paging` the tree is a function of the frame states and devices it started from; 123 is read back in every case; the invariant holds iff the byte is safe in that tree, which is so iff it strikes no page; every page that is not struck is translated by the mappings made, and the walk of a struck page goes on in the frame that the moved entry refers to; nothing outside the frame array, the structures and frame 0 changes |
| Paging.PageTables.TreeIntact | src/memory/paging.c:193-193 | what the test store leaves of the translations, page by page; the byte is safe iff it strikes no page |
| Paging.ReadBackExact | src/memory/paging.c:77-77 | a structure's address survives the 32-bit member and the shift by 12 iff its frame is below 2^32 (64-bit shift) or 2^20 (32-bit shift) |
| Paging.EntryReadsBack | src/memory/paging.c:93-109 | an entry that refers to a frame below the limit reads back as that frame |
| PageTree.WalkIsLookup | src/memory/paging.c:55-117 | memory that encodes a well-formed tree is walked by the processor to exactly the tree's page map, touching only structures of the tree |
| PageTree.WalkFromNode | src/memory/paging.c:64-116 | the same from any structure of the tree down |
| PageTree.WalkOnPath | src/memory/paging.c:64-116 | if only the entries on the path of one page are right, the translation of that page is |
| PageTree.PathExists | src/memory/paging.c:64-110 | a mapped page has a structure at every level |
| PageTree.LinkEncodes | src/memory/paging.c:72-75 | linking a zeroed frame outside the tree encodes the tree with exactly one more, empty, structure |
| PageTree.PageEncodes | src/memory/paging.c:112-116 | one page-table store encodes the tree with exactly one page changed |
| PageTree.AddTableWellFormed | src/memory/paging.c:67-75 | adding a structure in an unused frame keeps a genuine tree |
| PageTree.EncodesKept | src/memory/paging.c:70-70 | stores outside the structures leave the encoding intact |
| PageTree.EntryStages | src/memory/paging.c:73-75 | what an entry says after each of the three bit-field stores: unchanged presence, then the new target |
| PagingState.EntriesFormTree | src/memory/paging.c:64-110 | in memory: present upper entries are never large pages, refer to locked frames that are neither the PML4 nor part of the frame array, and two of them refer to the same frame only if they are the same entry |
| PagingState.RequestGivesSpare | src/memory/paging.c:69-101 | a request, with a low free frame left, locks one that is outside the tree and the frame array |
| PagingState.SoundRequest | src/memory/paging.c:69-101 | `pmem_request_frame` keeps the joint invariant of memory, tree and allocator |
| PagingState.SoundZero | src/memory/paging.c:70-102 | zeroing a spare frame keeps it |
| PagingState.LinkStages | src/memory/paging.c:72-75 | between the three stores the parent stays reachable at its own address, and after them the joint invariant holds for the larger tree |
| PagingState.PageStages | src/memory/paging.c:112-116 | the same for the final entry, also when it replaces a live mapping |
| PagingState.SoundCr3 | src/memory/paging.c:184-187 | identity-mapped managed frames make the joint invariant hold with paging on |
| PagingState.StructuresSelfMapped | src/memory/paging.c:158-192 | every structure reachable from the PML4, including those made while the mapping was under way, is itself identity mapped |
| PagingState.SoundCalls | src/memory/pmem.c:137-194 | the joint invariant survives any run of allocator calls by other code that frees only frames holding no structure and no part of the array |
| PagingState.SoundOneCall | src/memory/pmem.c:137-194 | the joint invariant survives one such call, whatever it stores in the frame array |
| PagingStart.RootPlace | src/memory/pmem.c:115-120 | the PML4 in a reserved region has state RESERVED and lies outside the frame array |
| PagingStart.StartOwned | src/memory/pmem.c:96-132 | right after init no free frame is the PML4 or part of the frame array |
| PagingStart.StartSound | src/memory/pmem.c:71-135 | init establishes the joint invariant for the empty tree |
| MappingLog.ReplayIsLast | src/memory/paging.c:112-116 | the replayed map holds exactly the last mapping of each page |
| MappingLog.MissingNodes | src/memory/paging.c:64-110 | one call misses between 0 and 3 structures: one for each level not yet on the path |
| MappingLog.NodesGrow | src/memory/paging.c:64-110 | one more mapping adds exactly the missing structures |
| MappingLog.NodesSize | src/memory/paging.c:64-110 | the structures of a run are the PML4 and one per distinct 9-, 18- and 27-bit prefix |
| Placement.RunInOrder | src/memory/paging.c:64-110 | over any run of mapping calls the r-th structure created is in the r-th free frame, and the free frames left are the rest of the list |
| Placement.OrderIsNodes | src/memory/paging.c:64-110 | the order of creation lists each structure that the run needs exactly once |
| Placement.OrderLevels | src/memory/paging.c:64-110 | the PML4 comes first in that order and only lower structures after it |
| Placement.ExecuteAccounts | src/memory/paging.c:64-110 | a run of mapping calls locks one frame for each structure it creates |
| Placement.RequestTakesHead | src/memory/pmem.c:186-191 | a request takes the head of the list of free frames |
| Placement.EventStep | src/memory/paging.c:55-117 | one more call, of either kind, extends history, log and placement |
| IdentityRuns.IdentityExact | src/memory/paging.c:114-114 | identity mapping an address maps it to its own frame iff it is below 2^44 |
| IdentityRuns.IdentityMappingFrame | src/memory/paging.c:114-114 | identity mapping any 64-bit address maps its page to the frame of the page number cut to 32 bits |
| IdentityRuns.RunLengthExact | src/memory/paging.c:152-152 | for every size n the number k of iterations is the least with n < 4097*k |
| IdentityRuns.PageRunExact | src/memory/paging.c:152-155 | mapping i of a run, in numbers: page and frame of (addr + 4096*i) mod 2^64 |
| IdentityRuns.DeviceRunExact | src/memory/paging.c:165-172 | the device run is that of the framebuffer, the one mapping of 0xFEE00 to itself, and that of the HPET registers |
| IdentityRuns.CostAppend | src/memory/paging.c:158-173 | the structures needed by two runs in sequence add up |
| IdentityRuns.CostStep | src/memory/paging.c:64-110 | one more mapping costs the structures missing on its path |
| IdentityRuns.CostPrefix | src/memory/paging.c:152-155 | no prefix of a run costs more than the run |
| IdentityRuns.DeviceRunCost | src/memory/paging.c:165-172 | cost and structures of the three device areas |
| IdentityRuns.MemoryRunMapsManaged | src/memory/paging.c:158-163 | every managed frame below 2^44 bytes ends up mapped to itself, whatever the device areas overlap |
| SelfTest.InitRunTranslates | src/memory/paging.c:158-193 | after the mappings of `init_paging` the test page goes to frame 0, every other visited page to the frame of its own number cut to 32 bits, every unvisited page nowhere |
| SelfTest.InitRunCost | src/memory/paging.c:184-192 | cost of the whole run: the memory run and what the test page misses |
| InitMap.InitRunMap | src/memory/paging.c:158-193 | the mappings of `init_paging` leave exactly this page map: the test page to frame 0, managed frames and the pages visited for framebuffer, APIC and HPET to their own numbers, nothing else |
| InitMap.InitPageExact | src/memory/paging.c:158-193 | that page map in numbers: page 0x99999999 goes to frame 0; a managed frame, page 0xFEE00, and a page at most n/4097 pages after the first one of the framebuffer or of the HPET registers go to their own number cut to 32 bits; nothing else is mapped |
| InitMap.MemoryRunTouches | src/memory/paging.c:158-173 | a page is mapped by `_identity_paging_memory` iff it is a managed frame or one of the three loops visits it |
| InitMap.InitTreeInOrder | src/memory/paging.c:64-110 | the tree of `init_paging` in closed form: its structures are those needed, in the order of need in the free frames |
| InitMap.SelfTestExact | src/memory/paging.c:189-193 | for every list of managed frames, PML4, frame states and devices with enough free frames: the test byte is safe in the tree of `init_paging` iff the structures that the order of need and the free list put in frame 0 have nothing below entry 307, or there a table in a free frame that is 7 modulo 16 |
| InitMap.SparedExact | src/memory/paging.c:189-193 | for one structure: its entry 307 does not suffer iff, in a page table, no loop of `init_paging` maps that page, or, above, the structure below is not needed or gets a free frame that is 7 modulo 16 |
| InitMap.ZeroNotFree | src/memory/paging.c:189-193 | a case of the same condition: if neither a free frame nor the PML4 is frame 0 then the test byte hits no structure |
| InitMap.ZeroFirstFree | src/memory/paging.c:189-193 | a case of `SelfTestExact`: if frame 0 is the lowest free frame then it is the first PDPT, and the byte is safe iff the page directory of its entry 307 is absent or in a frame that is 7 modulo 16 |
| InitMap.CostIsEnough | src/memory/paging.c:58-58 | as many free low frames as the run costs are enough for all its structures |
| SelfTest.TestStoreExact | src/memory/paging.c:193-193 | the test store leaves the page tables intact iff frame 0 is no structure, or its entry 307 is empty or refers to a frame that is 7 modulo 16 |
| SelfTest.SafeStrikesNone | src/memory/paging.c:193-193 | for every genuine tree the byte is safe iff there is no page whose translation goes through a moved entry |
| SelfTest.WalkAvoidsTestByte | src/memory/paging.c:189-195 | in any memory, a page none of whose four indexes is 307 is translated as before the store |
| SelfTest.TestPageAvoids | src/memory/paging.c:190-192 | the test page is such a page: its indexes are 19, 102, 204 and 409 |
| SelfTest.TestByteReadBack | src/memory/paging.c:190-197 | so the test address translates to physical byte 0x999 before and after the store, and the byte read there is 123: the panic is out of reach |
| SelfTest.TestByteEntry | src/memory/paging.c:193-193 | an entry 307 of frame 0 that referred to frame f refers to f - f%16 + 7 after the store |
| SelfTest.UnstruckWalks | src/memory/paging.c:193-193 | every page whose translation does not go through a moved entry keeps it |
| SelfTest.StruckWalks | src/memory/paging.c:193-193 | every other translation goes on in the frame that the moved entry refers to |
| SelfTest.SoundTestStore | src/memory/paging.c:193-193 | the joint invariant survives the store iff the byte is safe |
| SelfTest.TestByteFields | src/memory/paging.c:193-193 | what the walk reads of a struck entry: address bits 15:12 become 7, and the rest of the address, the reserved bits, `present`, `rw` and `ps` stay |
| SelfTest.TestByteInPtEntry | src/memory/paging.h:42-59 | all members of a struck page-table entry: `g` becomes 1, the three ignored bits 5, the address moves, every other member stays |
| SelfTest.TestByteInTableEntry | src/memory/paging.h:61-110 | all members of a struck entry of an upper structure: the four ignored bits become 11, the address moves, every other member stays |
| SelfTest.UnlockedZeroIsSafe | src/memory/paging.c:189-193 | the self test is harmless whenever frame 0 is not locked and not the PML4 |
| SelfTest.TestStoreArray | src/memory/paging.c:193-193 | the test store never changes the frame array, even if that lies in frame 0 |
| FrameNeeds.RunCoversExact | src/memory/paging.c:146-156 | for every address and every size above 0: the pages visited, with all wrap-around, are those of all n bytes iff (addr%4096) + n/4097 + n%4097 <= 4096 or the run goes round all 2^36 pages |
| FrameNeeds.VisitsExact | src/memory/paging.c:152-155 | for every area and page: the loop visits the page iff 4097 times its distance from the first page, modulo 2^36, is at most the size |
| FrameNeeds.AlignedCoversExact | src/memory/paging.c:146-156 | from an aligned start the condition is n/4097 + n%4097 <= 4096 |
| FrameNeeds.UnalignedMissed | src/memory/paging.c:146-156 | for 2 bytes from 0x1FFF the count is the round-up and the page of the second byte is not visited |
| FrameNeeds.LargeFramebufferMissed | src/memory/paging.c:148-155 | an aligned framebuffer of 3840 by 2160 pixels of 4 bytes fills 8100 pages and gets 8099, so its last page is not visited |
| FrameNeeds.RunIsRoundUpExact | src/memory/paging.c:148-152 | the count is the documented round-up iff the same condition holds |
| FrameNeeds.WholePagesExact | src/memory/paging.c:152-152 | p whole pages get p pages iff 1 <= p <= 4097 |
| FrameNeeds.ConsecutivePages | src/memory/paging.c:152-155 | page i of the loop is the i-th page after the first |
| FrameNeeds.ConsecutivePrefixes | src/memory/paging.c:146-156 | k consecutive pages share at most (k+span-2)/span+1 prefixes of a level |
| FrameNeeds.ConsecutiveCost | src/memory/paging.c:146-156 | k consecutive pages take at most (k+510)/512+1 page tables, (k+2^18-2)/2^18+1 page directories and (k+2^27-2)/2^27+1 PDPTs |
| FrameNeeds.MapCost | src/memory/paging.c:158-163 | identity mapping a whole memory map takes at most the sum of these bounds over its regions |
| FrameNeeds.InitRunBound | src/memory/paging.c:158-192 | the same for everything `init_paging` maps |
| BootNeeds.FreeAfterInit | src/memory/pmem.c:89-132 | after init the free frames of the first k regions are at least their usable pages, less frames/32 for the array and one for the stack |
| BootNeeds.KindsCount | src/memory/pmem.c:115-120 | by region types alone the free frames are the pages of the usable regions |
| Mmu.ExtractVaddrPagingIndexes | src/memory/paging.c:36-53 | successive shifting and masking yields the bit ranges 47:39, 38:30, 29:21 and 20:12 |
| Mmu.IndexesRebuildAddress | src/memory/paging.c:36-53 | the four indexes and the offset rebuild the low 48 bits of the address |
| Mmu.SameIndexesIffSamePage | src/memory/paging.c:36-53 | two addresses share all indexes iff they lie in the same page modulo 2^48 |
| Mmu.IndexesAreLevels | src/memory/paging.c:41-52 | the indexes are the digits that the levels of the radix tree use |
| Mmu.WalkDependsOnReads | src/memory/paging.h:22-33 | a translation depends only on the structures it reads |
| Mmu.LargePages | src/memory/paging.h:22-33 | an entry with bit 7 set is a fault in a PML4, and maps a contiguous 1 GiB in a PDPT and 2 MiB in a page directory |
| Mmu.DirectKept | src/memory/paging.c:186-193 | frames mapped to themselves through other frames stay so, whatever is stored in them |
| MachineModel.Machine.Translate | src/memory/paging.h:22-33 | the processor's translation as a loop over the levels equals the walk of the SDM |
| MachineModel.Machine.Load | src/memory/paging.c:67-113 | a load through a frame's own address reads that frame |
| MachineModel.Machine.Store | src/memory/paging.c:73-116 | a store through a frame's own address changes that word of physical memory and no other |
| MachineModel.Machine.StoreByte | src/memory/paging.c:193-193 | a one-byte store through the translation |
| MachineModel.Machine.LoadByte | src/memory/paging.c:195-195 | a one-byte load through the translation, None for a page fault |
| MachineModel.Machine.ZeroFrame | src/libc/stdlib.c:49-57 | zeroing a frame word by word, through addresses that stay translated throughout |
| MachineModel.Machine.SetEntry | src/memory/paging.c:73-75 | the three bit-field assignments, each a load and a store, give the link word |
| Words.WriteAddrFields | src/memory/paging.h:42-110 | assigning the address member stores 32 bits and keeps `present`, `rw`, `ps` and the reserved bits |
| Words.WritePresentFields | src/memory/paging.c:74-115 | assigning `present` keeps address, `rw`, `ps` and reserved bits |
| Words.WriteRwFields | src/memory/paging.c:75-116 | assigning `rw` keeps address, `present`, `ps` and reserved bits |
| Words.FrameFieldSplit | src/memory/paging.h:54-55 | the frame field that the processor reads is the reserved member above the address member |
| Words.EntryAtPut | src/memory/paging.c:65-65 | a store to one entry is read back there and changes no other entry of any frame |
| BitFields.EntryLayouts | src/memory/paging.h:42-110 | both packed layouts fill 64 bits and agree on the offsets of `present`, `rw`, the address and the reserved member |
| BitFields.AssignMember | src/memory/paging.h:42-110 | an assignment to a member of any packed layout gives it the value cut to its width and changes no other member |
| BitFields.WriteAddrIsAssign | src/memory/paging.h:42-110 | the arithmetic form of the address store is the bit-field assignment at bit 12, width 32 |
| BitFields.WritePresentIsAssign | src/memory/paging.h:44-44 | the same for `present`, bit 0 |
| BitFields.WriteRwIsAssign | src/memory/paging.h:45-45 | the same for `rw`, bit 1 |
| BitFields.FieldValue | src/memory/paging.h:42-110 | a member of any 64-bit layout is read by shifting and masking |
| BitFields.ReadsAreMembers | src/memory/paging.h:42-110 | address, reserved bits, `present` and `rw` as the model reads them are the members of the packed structures |
| BitFields.PageSizeIsMember | src/memory/paging.h:61-110 | so is `ps` in the three upper structures |
| BitFields.EntriesHaveShape | src/memory/paging.h:42-110 | both layouts have the shape that `ReadsAreMembers` and `LinkMembers` ask for |
| BitFields.LinkMembers | src/memory/paging.c:73-116 | after the three assignments `present` and `rw` are 1, the address member holds the low 32 bits, and every other member of the entry, flags and all, is what it was |
| BitFields.ByteReadBack | src/memory/paging.c:193-195 | a byte stored into a word is read back |
| BitFields.WithByteOne | src/memory/paging.c:193-193 | a store to byte 1 replaces bits 15:8 of the word |
| Pmem.PhysicalMemory.InitPhysicalMemory | src/memory/pmem.c:28-36 | the array is placed in the largest conventional region and every frame gets its initial address and state; memory outside the array is untouched |
| Pmem.PhysicalMemory.Init | src/memory/pmem.c:71-135 | the array is exactly the concatenation of all regions' pages; a frame is reserved (2) iff the UEFI type of its region is not 3, 4 or 7 or the stack lies in it, otherwise locked (1) if it is one of the frames/32 from the array's region on, otherwise free (0); the counters count the states; a second call does nothing |
| Pmem.PhysicalMemory.PlaceArray | src/memory/pmem.c:82-87 | the array starts at the buffer, the frame count is that of the map |
| Pmem.PhysicalMemory.FreeAll | src/memory/pmem.c:89-94 | all frames free, counters exact |
| Pmem.PhysicalMemory.ZeroArray | src/memory/pmem.c:89-94 | the loop that zeroes every structure stays inside the array |
| Pmem.PhysicalMemory.ZeroStructure | src/memory/pmem.c:92-92 | zeroing one structure clears its two members and no other structure |
| Pmem.PhysicalMemory.SetFrameAddr | src/memory/pmem.c:113-113 | sets one address member |
| Pmem.PhysicalMemory.FillFrame | src/memory/pmem.c:111-121 | one round of the inner loop gives the frame its address and reserves it iff the UEFI type of its region is not 3, 4 or 7; the filled prefix is one frame longer |
| Pmem.PhysicalMemory.FillRegion | src/memory/pmem.c:110-122 | the inner loop extends it by one region |
| Pmem.PhysicalMemory.FillFromMap | src/memory/pmem.c:96-123 | the outer loop fills the whole array, and finds the index of the first frame of the array's region |
| Pmem.PhysicalMemory.ReserveStack | src/memory/pmem.c:125-127 | reserves the frame that holds the stack, and changes no other state |
| Pmem.PhysicalMemory.LockArray | src/memory/pmem.c:129-132 | locks the free ones among the frames/32 frames from the array's first on, also in regions after the array's own, and changes no other state |
| Pmem.PhysicalMemory.Populate | src/memory/pmem.c:96-132 | the three phases compose to the promised states |
| Pmem.PhysicalMemory.LockFrame | src/memory/pmem.c:137-145 | state 0 becomes 1, any other stays, every other frame keeps its state; the three counters are the numbers of frames in each state |
| Pmem.PhysicalMemory.FreeFrame | src/memory/pmem.c:147-155 | state 1 becomes 0, any other stays, every other frame keeps its state; the three counters are the numbers of frames in each state |
| Pmem.PhysicalMemory.ReserveFrame | src/memory/pmem.c:157-165 | state 0 becomes 2, any other stays, every other frame keeps its state; the three counters are the numbers of frames in each state |
| Pmem.PhysicalMemory.UnreserveFrame | src/memory/pmem.c:167-175 | state 2 becomes 0, any other stays, every other frame keeps its state; the three counters are the numbers of frames in each state |
| Pmem.PhysicalMemory.RequestFrame | src/memory/pmem.c:177-194 | locks and returns the lowest free frame; the early exit on the cached counter agrees with the scan, and the final `return NULL` is unreachable |
| Pmem.PhysicalMemory.GetFrameIndexByPtr | src/memory/pmem.c:46-64 | the first frame that holds the pointer, or -1 iff none does |
| Pmem.PhysicalMemory.SetFrameState | src/memory/pmem.c:38-40 | one state byte changes, no address, no other state, no memory outside the array |
| Pmem.PhysicalMemory.GetFrameState | src/memory/pmem.c:42-44 | reads the state byte from memory |
| Pmem.PhysicalMemory.GetFrameAddr | src/memory/pmem.c:54-55 | reads the address member from memory |
| Pmem.NullMeansExhaustedExact | src/memory/pmem.c:178-193 | NULL means that no frame is free, in every state, iff no managed frame has address 0 |
| Pmem.RequestedIsLowest | src/memory/pmem.c:182-193 | a request returns the address of the lowest frame in state 0, which goes to state 1, and NULL without a change if there is none |
| Pmem.CountsAfter | src/memory/pmem.c:137-175 | the three counts after one frame changes its state |
| FrameArray.StoreState | src/memory/pmem.h:14-17 | storing a state byte changes that state and nothing else of the array |
| FrameArray.StoreAddr | src/memory/pmem.h:14-17 | storing an address changes that address and nothing else of the array |
| FrameArray.ArrayElsewhere | src/memory/pmem.h:14-17 | stores outside the array's frames change no structure |
| FrameArray.SlotWords | src/memory/pmem.h:14-17 | structure i lies in words 2i and 2i+1 of the array: the address, and the state in the low byte of the second |
| FrameStates.HeldFrameNotReissued | src/memory/pmem.c:137-194 | over any interleaving of calls a frame is handed out twice only if it was freed in between |
| FrameStates.GrantedIsLowestFree | src/memory/pmem.c:177-194 | every request grants the lowest free frame, never a reserved one, and nothing only if none is free |
| FrameStates.LockedUntilFreed | src/memory/pmem.c:137-194 | a locked frame stays locked until a call frees it |
| FrameStates.RunConserves | src/memory/pmem.c:137-194 | no run loses or invents a frame: the three counts always sum to `frames` |
| FrameStates.NoneFree | src/memory/pmem.c:182-193 | the count of free frames is 0 iff the scan finds none |
| FrameStates.CountUpdate | src/memory/pmem.c:141-143 | how one state change moves a count |
| FrameStates.StepAt | src/memory/pmem.c:137-194 | the state of every frame after each of the five calls, in the numbers 0, 1 and 2: a free makes a locked frame free, an unreserve a reserved one, and no other frame changes |
| FrameLayout.LockedFramesCoverArray | src/memory/pmem.c:66-69 | the frames/32 locked frames cover the 16*frames bytes of the array iff there are no frames or at least 32 |
| FrameLayout.ArrayNeverFree | src/memory/pmem.c:129-132 | from 32 frames on no frame of the array is free after init |
| FrameLayout.ArrayProtectedExact | src/memory/pmem.c:125-132 | the array is out of the allocator's reach iff there are at least 32 frames or the stack happens to lie in its first frame |
| FrameLayout.LocksStayExact | src/memory/pmem.c:129-132 | the lock loop touches only entries of the array iff the regions from the array's own on have frames/32 pages |
| FrameLayout.LocksCanLeave | src/memory/pmem.c:129-132 | a well-formed map whose largest conventional region holds the array and with which the lock loop runs past the end of it |
| FrameLayout.LookupInvertsAddressing | src/memory/pmem.c:46-64 | on the initial array an address with an offset below 4096 lies in frame k iff k is the index of that address |
| FrameLayout.LookupFailsInHoles | src/memory/pmem.c:46-64 | no frame holds a pointer iff it lies in a hole of the memory map |
| FrameLayout.StackLookup | src/memory/pmem.c:125-127 | the lookup of a mapped stack succeeds, and reserving its result reserves exactly the stack's frame |
| FrameLayout.FilledStep | src/memory/pmem.c:110-121 | one round of the inner loop in terms of the whole array |
| FrameLayout.PhasesGiveInitial | src/memory/pmem.c:96-132 | filling, reserving the stack and locking the array compose to the initial states |
| FrameLayout.PageAfterInit | src/memory/pmem.c:110-132 | page n of any region after `init`, in the numbers of the UEFI types and of the states: its address, and reserved, locked or free |
| FrameLayout.FilledPage | src/memory/pmem.c:112-120 | the same after its round of the inner loop |
| FrameLayout.BasesDistinct | src/memory/pmem.c:105-108 | at most one region starts at the buffer |
| MemoryMap.FrameListAt | src/memory/pmem.c:110-121 | page n of region i is frame number (pages before i)+n, at base_i+4096n |
| MemoryMap.Locate | src/memory/pmem.c:97-123 | every index of the array is a page of some region |
| MemoryMap.FramesDistinct | src/memory/pmem.c:96-123 | disjoint aligned regions give pairwise distinct frames |
| MemoryMap.MapFitsMemory | src/memory/mmap.c:10-20 | so the number of frames cannot exceed the physical address space, and the sum does not wrap |
| MemoryMap.GetNumberOfPageFrames | src/memory/mmap.c:10-20 | the loop returns the number of frames of the whole map |
| MemoryMap.GetLargestFreeMemSeg | src/memory/pmem.c:9-26 | the first of the largest conventional regions and its size in bytes; no region iff none is conventional |
| MemoryMap.LargestUnique | src/memory/pmem.c:20-23 | that region is determined by the map |
| MemoryMap.LargestExact | src/memory/pmem.c:17-25 | the region chosen is the first of those of type 7 with the most pages |
| MemoryMap.UsableKinds | src/memory/pmem.c:117-118 | the types whose frames may be handed out are 3, 4 and 7 |
| Stdlib.Itoa | src/libc/stdlib.c:59-88 | writes the numeral and a NUL through the loop and the in-place reversal, and leaves the rest of the buffer alone |
| Stdlib.PutDigits | src/libc/stdlib.c:75-80 | the loop leaves the digits in reverse order |
| Stdlib.StrReverse | src/libc/stdlib.c:25-36 | reverses the first `len` characters in place and nothing else |
| Stdlib.StrLen | src/libc/stdlib.c:14-23 | the length of the text before the first NUL |
| Stdlib.Memcpy | src/libc/stdlib.c:38-47 | copies n characters to the given offset and nothing else |
| Stdlib.Memset | src/libc/stdlib.c:49-57 | fills the first n characters and nothing else |
| Stdlib.BufferSuffices | src/libc/stdlib.c:59-88 | a buffer takes a number iff it is below base^(size-1) |
| Numerals.ParseRender | src/libc/stdlib.c:75-80 | parsing the digits of a number in its base gives the number back |
| Numerals.RenderParse | src/libc/stdlib.c:75-80 | rendering what a canonical numeral denotes gives the numeral back |
| Numerals.RenderExact | src/libc/stdlib.c:68-80 | the digits written for a number are the one string of digits without superfluous leading zeros that denotes it |
| Numerals.NoLeadingZero | src/libc/stdlib.c:68-80 | the first digit is 0 iff the number is 0 |
| Numerals.LengthExact | src/libc/stdlib.c:75-82 | at most d digits iff num < base^d, so the digit count is the least such d |
| Numerals.DigitsAre | src/libc/stdlib.c:78-78 | the digits are 0 to 9 and then the lower-case letters |
| Numerals.WordDigits | src/console/console.c:126-127 | at most 20 decimal and 16 hexadecimal digits for a 64-bit number |
| ConsoleModel.Console.Printf | src/console/console.c:122-194 | draws exactly the rendering of the format and its arguments, and leaves the cursor at the layout of that text |
| ConsoleModel.Console.FormatInto | src/console/console.c:129-191 | the two-state loop with running offset writes exactly the rendering |
| ConsoleModel.Console.PutArgument | src/console/console.c:136-173 | one conversion appends the C string of its argument (%s), its decimal (%d) or its hexadecimal numeral (%p) |
| ConsoleModel.Console.PutNumber | src/console/console.c:156-173 | itoa into the small buffer and a copy append the numeral |
| Format.RenderingAppend | src/console/console.c:133-189 | a complete format renders independently of what follows it, from exactly the arguments it consumes, in order |
| Format.StringConversion | src/console/console.c:137-148 | at any place of any format %s prints the text of its argument, which is the one after those of the conversions before it |
| Format.DecimalConversion | src/console/console.c:156-164 | likewise %d prints the one canonical string of digits that denotes its argument in base 10 |
| Format.HexConversion | src/console/console.c:165-173 | likewise %p, in base 16 |
| Format.OtherConversion | src/console/console.c:136-178 | any other character after a per cent sign is dropped with it and takes no argument |
| Format.TrailingPercent | src/console/console.c:180-182 | a per cent sign at the end is dropped |
| Format.PlainText | src/console/console.c:183-188 | text without per cent signs is printed as it is |
| Format.CounterLine | src/kernel.c:72-72 | the format of the boot message with the number 255 prints `HPET counter : 255`, and with %p `ff` |
| Format.PendingStep | src/console/console.c:134-188 | what each character of the format does in each of the two states |
| Format.NoPercent | src/console/console.c:176-181 | no format prints a per cent sign of its own: `%%` emits nothing |
| Format.RenderingHasNoNul | src/console/console.c:191-193 | the rendering of a C string holds no NUL, so all of it is printed |
| ConsoleModel.Console.PrintStr | src/console/console.c:109-114 | cursor and glyphs follow the recursive layout of the text; as many glyphs are drawn as it has characters other than newline and tab |
| ConsoleModel.Console.PrintInt | src/console/console.c:116-120 | prints the numeral, for numbers that fit the 32-byte buffer |
| ConsoleModel.Console.PrintChar | src/console/console.c:69-97 | newline, tab of three cells, or, for every other character, its glyph at the cursor |
| ConsoleModel.Console.PrintNext | src/console/console.c:110-113 | one more character of a text extends its layout |
| ConsoleModel.Console.ClearScreen | src/console/console.c:99-107 | draws lines*columns blanks, number k in cell k of the reading order, and homes the cursor |
| ConsoleModel.Console.NewLine | src/console/console.c:18-21 | start of the next line, with the 16-bit wrap-around of the line number |
| ConsoleModel.Console.Next | src/console/console.c:23-29 | next cell, keeping column < max_columns |
| ConsoleModel.Console.Reset | src/console/console.c:42-45 | the origin |
| ConsoleModel.Console.constructor | src/console/console.c:11-16 | the cursor starts at the origin |
| ConsoleModel.BlanksFillScreen | src/console/console.c:99-107 | printing lines*columns blanks from the origin draws exactly the blank screen |
| CursorLayout.LayoutPosition | src/console/console.c:18-97 | the cursor stays in the line, and in reading order it follows plain arithmetic: glyph +1, tab +3, newline to the next multiple |
| CursorLayout.GlyphOfCharacter | src/console/console.c:69-97 | in any text, character i other than newline and tab is drawn, as the glyph whose number counts such characters before it, at the cell to which the arithmetic leads |
| CursorLayout.GlyphCount | src/console/console.c:69-97 | and nothing else is drawn |
| CursorLayout.PlainGlyphs | src/console/console.c:99-107 | the i-th glyph of plain text lands at (i / max_columns, i % max_columns) |
| CursorLayout.CellVisitedOnce | src/console/console.c:99-107 | each cell belongs to exactly one position |
| CursorLayout.CellOnScreen | src/console/console.c:103-103 | the cells of a screen are those of the first lines*columns positions |

## Left out

- Paging.PageTables.MapVaddrToPaddr: requires as many free low frames as structures are missing, because the source leaves the NULL of an exhausted allocator as a TODO; `Kernel.EnoughMemoryBoots` gives a condition under which this is met. Once CR3 is loaded it also requires that no frame in use (a structure, part of the frame array, or free and so a structure to be) is moved off its own page, because the code would then write through the moved page.
- Kernel.Boot: assumes the PML4 and thus the kernel image in a region that init reserves, the stack in some region, frames below 2^44 bytes other than the test page, at least 32 frames, and a largest region that holds the 16-byte structures of the array with the lock loop staying inside it; the source checks none of these.
- Paging.PageTables.AllocatorCall: requires that other code frees or unreserves no structure, no part of the frame array, and once CR3 is loaded no frame that is not mapped to itself; the source checks nothing, and a freed structure would be handed out again.
- Pmem.PhysicalMemory.Init: for maps whose chosen region holds the array and with which the lock loop stays inside it; beyond that the source overwrites what follows the region or the array.
- Pmem.PhysicalMemory.ReserveStack: requires the stack to lie in the memory map, because the source uses the lookup's -1 as an index otherwise.
- Pmem.PhysicalMemory.GetFrameIndexByPtr: requires addresses below 2^52, so that the end of a page does not wrap.
- MachineModel.Machine.ZeroFrame: clears eight bytes at a time where `memset` clears one, because memory is an array of words; the same holds for the zeroing of array structures.
- ConsoleModel.Console.Printf: for formats shorter than 65536 and renderings shorter than 4096 characters, and arguments of the kinds the format asks for; beyond these the source wraps its 16-bit indices, overruns its buffer or reads wrong arguments.
- ConsoleModel.Console.ClearScreen: for screens of fewer than 2^31 cells, where the 32-bit product of the source does not overflow.
- ConsoleModel.Console.PrintInt: for numerals of at most 31 characters, because the source's buffer has 32.
- Stdlib.Itoa: for bases 2 to 36, outside which the source divides by zero, does not end, or leaves the alphabet; the buffer must hold the numeral and its NUL.
- MemoryMap.GetNumberOfPageFrames: for maps of fewer than 2^32 non-empty regions; the 32-bit counter of the loop does not end otherwise.
- Stdlib.Memcpy: source and destination are different objects, as at every call in the source; overlapping ranges are not modelled.
- The memory map is a value, not bytes in memory: the address arithmetic of `get_memory_descriptor` with its descriptor size is not modelled.
- The globals `physical_memory`, `kernel` and the stack are outside the modelled memory; only the PML4 of the kernel image is in it.
- The counters and indices of the allocator are unbounded numbers; they never reach 2^64, since they count frames of a 52-bit address space.
- Paging.PageTables.RunAccounting: for runs of mapping calls alone, since any other allocator call moves the counter; `Paging.PageTables.RunTranslates` holds over interleavings with such calls.
- Instruction fetches are not modelled. If frame 0 serves as the page table of the first 2 MiB, its entry 307 is that of page 0x133, above the link address of the kernel (page 0x100), and the fetch after the store may be what goes astray; that 123 is read back is said of the data access alone.
- Accessed and dirty bits, TLB and caches, access permissions, page faults on non-canonical addresses, and protection keys.
- CPUID, MSR and control-register setup other than the CR3 load, GDT, IDT, and all assembly files.
- ACPI table lookup, APIC and HPET registers: only the address ranges that paging maps.
- Framebuffer pixels and glyph bitmaps: the console records which glyph goes to which cell; characters above 127 are recorded as they are, without the sign extension of `char`.
- `ConsoleCursor__back` and `ConsoleCursor__gotoxy`: they can leave the column outside the line, and nothing modelled calls them.
- `kpanic`: proved out of reach in `init_paging`, so not modelled there.
- `strcmp`, `strncmp`, colours, `src/bitmap.c` and the informational printing of the boot sequence: easy or without callers.

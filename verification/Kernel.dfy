/** The boot sequence as far as memory is concerned: frame allocator, then paging. */
module Kernel {
  import opened Words
  import opened Mmu
  import opened MachineModel
  import opened FrameStates
  import opened FrameArray
  import opened MemoryMap
  import opened FrameLayout
  import opened Pmem
  import opened PageTree
  import opened PagingStart
  import opened MappingLog
  import opened Placement
  import opened IdentityRuns
  import opened SelfTest
  import opened InitMap
  import opened Paging
  import opened FrameNeeds
  import opened BootNeeds

  /** What the boot loader has to provide, in terms of the memory map, the kernel image and the devices. */
  ghost predicate Bootable(
    m: Mem, mm: seq<Descriptor>, stack: Word, pml4: Frame, dev: Devices, wideShift: bool, d: nat, low: nat)
  {
    WellFormedMap(mm) && 32 <= TotalPages(mm) && StackMapped(mm, stack)
    && LargestConventional(mm, |mm|, d) && HostsArray(mm, d)
    && RootReserved(mm, pml4) && Zeroed(m, pml4)
    && (forall f :: f in FrameList(mm) ==> f < 0x1_0000_0000 && f != TEST_PAGE)
    && LowFramesFit(mm, InitialStateSeq(mm, d, stack), low, TableLimit(wideShift))
    && Cost({ROOT}, InitRun(FramesOf(mm), dev)) <= Count(InitialStateSeq(mm, d, stack)[..low], FREE)
  }

  /** Page frame bounds of the regions, from those of the frames. */
  lemma {:induction false} RegionsLow(mm: seq<Descriptor>, bound: nat)
    requires WellFormedMap(mm) && forall f :: f in FrameList(mm) ==> f < bound
    ensures forall i :: 0 <= i < |mm| ==> Aligned(mm[i]) && mm[i].base / PAGE_SZ + mm[i].pages <= bound
  {
    hide FrameList, KindList, TotalPages, Start;
    forall i | 0 <= i < |mm|
      ensures Aligned(mm[i]) && mm[i].base / PAGE_SZ + mm[i].pages <= bound
    {
      FrameListAt(mm, i, mm[i].pages - 1);
      assert FrameList(mm)[Start(mm, i) + (mm[i].pages - 1)] in FrameList(mm);
    }
  }

  /** Every frame of the first k regions is below the bound of those regions. */
  lemma {:induction false} LowRegionsFit(mm: seq<Descriptor>, s: seq<State>, k: nat, limit: nat)
    requires k <= |mm| && |s| == TotalPages(mm)
    requires forall i :: 0 <= i < k ==> mm[i].base / PAGE_SZ + mm[i].pages <= limit
    ensures LowFramesFit(mm, s, Start(mm, k), limit)
  {
    hide FrameList, KindList, TotalPages;
    ListsPrefix(mm, k);
    forall j | 0 <= j < Start(mm, k)
      ensures FrameList(mm)[j] < limit
    {
      var i, n := Locate(mm[..k], j);
      FrameListAt(mm[..k], i, n);
      assert FrameList(mm)[..Start(mm, k)][j] == FrameList(mm)[j];
    }
  }

  /** Enough usable pages in the regions that structures may come from, and the boot never runs out of frames:
      a condition on the memory map and the sizes of the devices alone. */
  lemma {:induction false} EnoughMemoryBoots(
    m: Mem, mm: seq<Descriptor>, stack: Word, pml4: Frame, dev: Devices, wideShift: bool, d: nat, k: nat)
    requires WellFormedMap(mm) && 32 <= TotalPages(mm) && StackMapped(mm, stack)
    requires LargestConventional(mm, |mm|, d) && HostsArray(mm, d)
    requires RootReserved(mm, pml4) && Zeroed(m, pml4)
    requires forall f :: f in FrameList(mm) ==> f < 0x1_0000_0000 && f != TEST_PAGE
    requires InLinearSpace(dev.framebuffer, RunLength(dev.framebufferSize))
      && InLinearSpace(dev.hpet, RunLength(dev.hpetSize))
    requires k <= |mm| && forall i :: 0 <= i < k ==> mm[i].base / PAGE_SZ + mm[i].pages <= TableLimit(wideShift)
    requires TotalPages(mm) / 32 + 1
      + MapBound(mm) + Bound(RunLength(dev.framebufferSize)) + Bound(1) + Bound(RunLength(dev.hpetSize)) + 3
      <= UsablePages(mm[..k])
    ensures Bootable(m, mm, stack, pml4, dev, wideShift, d, Start(mm, k))
  {
    hide Count, FrameList, TotalPages, KindList, Zeroed, LargestConventional, WellFormedMap, RootReserved,
         HostsArray, Cost, MapBound, Bound, RunLength, UsablePages, Start, InitRun, StackMapped, LowFramesFit;
    RegionsLow(mm, 0x1_0000_0000);
    InitRunBound(mm, FramesOf(mm), dev);
    FreeAfterInit(mm, d, stack, k);
    LowRegionsFit(mm, InitialStateSeq(mm, d, stack), k, TableLimit(wideShift));
  }

  lemma {:induction false} RootUntouched(
    mm: seq<Descriptor>, d: nat, stack: Word, s: seq<State>, m: Mem, k: Mem, root: Frame)
    requires WellFormedMap(mm) && HostsArray(mm, d) && InitialStates(mm, d, stack, s) && RootReserved(mm, root)
    requires SameExcept(m, k, ArrayFrames(mm[d].base / PAGE_SZ, TotalPages(mm))) && Zeroed(m, root)
    ensures Zeroed(k, root)
  {
    var i := RootPlace(mm, d, stack, s, root);
    forall j: Index
      ensures EntryAt(k, root, j) == 0
    {
      SameExceptEntry(m, k, ArrayFrames(mm[d].base / PAGE_SZ, TotalPages(mm)), root, j);
    }
  }

  /** init_physical_memory and the creation of the page-table builder. */
  method StartPaging(
    machine: Machine, mm: seq<Descriptor>, stack: Word, pml4: Frame, ghost dev: Devices, wideShift: bool,
    ghost d: nat, ghost low: nat)
    returns (pages: PageTables)
    requires machine.Valid() && machine.cr3 == None && Bootable(machine.Mem(), mm, stack, pml4, dev, wideShift, d, low)
    modifies machine.ram
    ensures fresh(pages) && fresh(pages.pmem) && pages.machine == machine && pages.pml4 == pml4 && machine.cr3 == None
    ensures pages.Valid() && pages.events == [] && pages.tree == EmptyTree(pml4)
    ensures pages.config == StartConfig(mm, d, pml4, TableLimit(wideShift), low)
    ensures pages.pmem.StateSeq() == InitialStateSeq(mm, d, stack)
    ensures pages.LowFree() == Count(InitialStateSeq(mm, d, stack)[..low], FREE)
    ensures SameExcept(old(machine.Mem()), machine.Mem(), pages.config.arrFrames)
  {
    hide Count, FrameList, TotalPages, KindList, SameExcept, Zeroed, Direct, States, Addrs, LargestConventional,
         WellFormedMap, LowFramesFit, RootReserved, Cost, InitialStates, InitialStateSeq;
    ghost var m := machine.Mem();
    var pmem := new PhysicalMemory(machine, mm, stack);
    HasConventional(mm, d);
    pmem.InitPhysicalMemory();
    ghost var k: nat :| LargestConventional(mm, |mm|, k) && pmem.Initialized(k);
    LargestUnique(mm, |mm|, d, k);
    InitialStatesUnique(mm, d, stack, pmem.StateSeq());
    RootUntouched(mm, d, stack, pmem.StateSeq(), m, machine.Mem(), pml4);
    pages := new PageTables(pmem, pml4, wideShift, low, d);
  }

  lemma HasConventional(mm: seq<Descriptor>, d: nat)
    requires LargestConventional(mm, |mm|, d)
    ensures !NoConventional(mm, |mm|) && forall k: nat :: LargestConventional(mm, |mm|, k) ==> k == d
  {
    forall k: nat | LargestConventional(mm, |mm|, k)
      ensures k == d
    {
      LargestUnique(mm, |mm|, d, k);
    }
  }

  /** The tree that the boot builds: a function of the memory map, the kernel image and the devices. */
  ghost function BootTree(mm: seq<Descriptor>, stack: Word, pml4: Frame, dev: Devices, d: nat): Tree
    requires WellFormedMap(mm) && d <= |mm|
  {
    InitTree(FramesOf(mm), pml4, InitialStateSeq(mm, d, stack), dev)
  }

  /** The self test of this boot spares the page tables: a condition on the memory map, the stack, the frame of the PML4
      and the devices. */
  ghost predicate BootSpares(mm: seq<Descriptor>, stack: Word, pml4: Frame, dev: Devices, d: nat)
    requires WellFormedMap(mm) && d <= |mm| && EnoughFree(FramesOf(mm), InitialStateSeq(mm, d, stack), dev)
  {
    SelfTestSpares(FramesOf(mm), pml4, InitialStateSeq(mm, d, stack), dev)
  }

  /** The frames that the boot may store in: the array's, those of the structures, and frame 0. */
  ghost function BootFootprint(mm: seq<Descriptor>, stack: Word, pml4: Frame, dev: Devices, d: nat): set<nat>
    requires WellFormedMap(mm) && d < |mm|
  {
    ArrayFrames(mm[d].base / PAGE_SZ, TotalPages(mm)) + BootTree(mm, stack, pml4, dev, d).tables.Values + {0}
  }

  /** From a bootable machine, paging comes up, and the self test reads its byte back in every case. It leaves the page
      tables in order exactly if it spares them by the condition on the inputs, and then every page is translated as it
      should be: managed frames and device pages to themselves (their number cut to 32 bits), the test page to frame 0,
      and nothing else. Otherwise the byte strikes some page; the others are translated in this way all the same, and a
      struck translation goes on in the wrong frame. Memory outside the footprint is what it was. */
  method Boot(
    ram: array<Word>, mm: seq<Descriptor>, stack: Word, pml4: Frame, dev: Devices, wideShift: bool,
    ghost d: nat, ghost low: nat)
    returns (pages: PageTables, b: Option<nat>)
    requires ram.Length == PHYS_WORDS && Bootable(ram[..], mm, stack, pml4, dev, wideShift, d, low)
    modifies ram
    ensures pages.machine.ram == ram && pages.machine.cr3 == Some(pml4) && b == Some(123)
    ensures pages.events == Calls(InitRun(FramesOf(mm), dev)) && pages.tree == BootTree(mm, stack, pml4, dev, d)
    ensures EnoughFree(FramesOf(mm), InitialStateSeq(mm, d, stack), dev)
    ensures pages.Valid() <==> BootSpares(mm, stack, pml4, dev, d)
    ensures BootSpares(mm, stack, pml4, dev, d) ==>
      forall v: Page :: Walk(ram[..], pml4, v) == InitPage(FramesOf(mm), dev, v)
    ensures BootSpares(mm, stack, pml4, dev, d) ==> Walk(ram[..], pml4, 0xF_EE00) == Some(0xF_EE00)
    ensures BootSpares(mm, stack, pml4, dev, d) <==> forall v: Page :: !Struck(BootTree(mm, stack, pml4, dev, d), v)
    ensures forall v: Page :: !Struck(BootTree(mm, stack, pml4, dev, d), v) ==>
      Walk(ram[..], pml4, v) == InitPage(FramesOf(mm), dev, v)
    ensures forall level: nat, v: Page :: StruckAt(BootTree(mm, stack, pml4, dev, d), level, v) ==>
      Walk(ram[..], pml4, v)
      == WalkFrom(ram[..], level - 1, Moved(Child(BootTree(mm, stack, pml4, dev, d), NodeOf(level, v), 307).value), v)
    ensures SameExcept(old(ram[..]), ram[..], BootFootprint(mm, stack, pml4, dev, d))
  {
    hide Count, FrameList, TotalPages, KindList, Zeroed, LargestConventional, WellFormedMap, LowFramesFit,
         RootReserved, Cost, InitialStateSeq, InitRun, Walk, WalkFrom, TestByteSafe, InitTree, InitPage, Struck,
         StruckAt, Child, Calls, SameExcept, EnoughFree, SelfTestSpares;
    BootSafeExact(ram[..], mm, stack, pml4, dev, wideShift, d, low);
    ghost var m := ram[..];
    var machine := new Machine(ram);
    pages := StartPaging(machine, mm, stack, pml4, dev, wideShift, d, low);
    BootPages(mm, stack, pml4, dev, d);
    ghost var k := machine.Mem();
    b := pages.InitPaging(dev);
    SameExceptChain(m, k, ram[..], pages.config.arrFrames, BootFootprint(mm, stack, pml4, dev, d));
    InitPageExact(FramesOf(mm), dev, 0xF_EE00);
  }

  /** For every bootable machine: the byte is safe in the tree exactly under that condition. */
  lemma BootSafeExact(
    m: Mem, mm: seq<Descriptor>, stack: Word, pml4: Frame, dev: Devices, wideShift: bool, d: nat, low: nat)
    requires Bootable(m, mm, stack, pml4, dev, wideShift, d, low)
    ensures EnoughFree(FramesOf(mm), InitialStateSeq(mm, d, stack), dev)
    ensures TestByteSafe(BootTree(mm, stack, pml4, dev, d)) <==> BootSpares(mm, stack, pml4, dev, d)
  {
    hide Count, FrameList, TotalPages, KindList, Zeroed, LargestConventional, RootReserved, Cost, InitRun,
         TestByteSafe, InitTree, InitialState, FreeList, Order, SelfTestSpares;
    CostIsEnough(FramesOf(mm), InitialStateSeq(mm, d, stack), low, dev);
    SelfTestExact(FramesOf(mm), pml4, InitialStateSeq(mm, d, stack), dev);
  }

  lemma {:induction false} BootPages(mm: seq<Descriptor>, stack: Word, pml4: Frame, dev: Devices, d: nat)
    requires WellFormedMap(mm) && d <= |mm| && forall f :: f in FrameList(mm) ==> f < 0x1_0000_0000
    ensures forall v: nat ::
      Lookup(BootTree(mm, stack, pml4, dev, d).pages, v) == InitPage(FramesOf(mm), dev, v)
  {
    hide FrameList, TotalPages, WellFormedMap, InitialStateSeq, InitRun, InitPage, Replay, Calls, Execute;
    forall v: nat
      ensures Lookup(BootTree(mm, stack, pml4, dev, d).pages, v) == InitPage(FramesOf(mm), dev, v)
    {
      InitRunMap(FramesOf(mm), dev, v);
    }
  }

  /** A condition on the memory map alone that makes the byte safe: frame 0 is neither the PML4 nor free after init. */
  lemma {:induction false} ZeroNotFreeBoots(
    m: Mem, mm: seq<Descriptor>, stack: Word, pml4: Frame, dev: Devices, wideShift: bool, d: nat, low: nat)
    requires Bootable(m, mm, stack, pml4, dev, wideShift, d, low) && pml4 != 0
    requires forall j :: 0 <= j < TotalPages(mm) && FrameList(mm)[j] == 0 ==> InitialState(mm, d, stack, j) != FREE
    ensures TestByteSafe(BootTree(mm, stack, pml4, dev, d))
  {
    hide Count, FrameList, TotalPages, KindList, Zeroed, LargestConventional, RootReserved, Cost, InitRun,
         TestByteSafe, InitTree, InitialState, FreeList, Order;
    var s := InitialStateSeq(mm, d, stack);
    CostIsEnough(FramesOf(mm), s, low, dev);
    ZeroNotFree(FramesOf(mm), pml4, s, dev);
  }

  /** Where frame 0 is the lowest free one, as in a map that begins with conventional memory, it becomes the PDPT of the
      first 512 GiB, and the condition is that of this one structure. */
  lemma {:induction false} ZeroFirstFreeBoots(
    m: Mem, mm: seq<Descriptor>, stack: Word, pml4: Frame, dev: Devices, wideShift: bool, d: nat, low: nat)
    requires Bootable(m, mm, stack, pml4, dev, wideShift, d, low) && pml4 != 0
    requires FrameList(mm)[0] == 0 && InitialState(mm, d, stack, 0) == FREE
    ensures Lookup(BootTree(mm, stack, pml4, dev, d).tables, Node(3, 0)) == Some(0)
    ensures var s := InitialStateSeq(mm, d, stack);
      EnoughFree(FramesOf(mm), s, dev)
      && (TestByteSafe(BootTree(mm, stack, pml4, dev, d)) <==> SparesChild(FramesOf(mm), s, dev, Node(3, 0)))
  {
    hide Count, FrameList, TotalPages, KindList, Zeroed, LargestConventional, RootReserved, Cost, InitRun,
         TestByteSafe, InitTree, InitialState, FreeList, Order, SparesChild;
    var s := InitialStateSeq(mm, d, stack);
    CostIsEnough(FramesOf(mm), s, low, dev);
    FreeListStarts(s);
    MapFitsMemory(mm);
    ZeroFirstFree(FramesOf(mm), pml4, s, dev);
    assert Prefix(3, 0) == 0;
  }

  lemma {:induction false} FreeListStarts(s: seq<State>)
    requires s != [] && s[0] == FREE
    ensures FreeList(s) != [] && FreeList(s)[0] == 0
  {
    if |s| > 1 {
      FreeListStarts(s[..|s| - 1]);
    }
  }
}

/** A boot whose self test damages the page tables. */
module StruckBoot {
  import opened Words
  import opened Mmu
  import opened FrameStates
  import opened MemoryMap
  import opened FrameLayout
  import opened PageTree
  import opened PagingStart
  import opened MappingLog
  import opened Placement
  import opened IdentityRuns
  import opened SelfTest
  import opened InitMap
  import opened FrameNeeds
  import opened BootNeeds
  import opened Paging
  import opened Kernel

  /** Three conventional regions, pages 0-6, 8-22 and 24-38, and a reserved one above 1 MiB, where the kernel
      image is linked, with the PML4 in page 0x140. */
  const SMALL_MAP: seq<Descriptor> := [
    Descriptor(EFI_CONVENTIONAL_MEMORY, 0, 7), Descriptor(EFI_CONVENTIONAL_MEMORY, 0x8000, 15),
    Descriptor(EFI_CONVENTIONAL_MEMORY, 0x1_8000, 15), Descriptor(0, 0x14_0000, 1)]

  const SMALL_STACK: Word := 0x1_8000

  const SMALL_PML4: Frame := 0x140

  /** A framebuffer of one page at 307 GiB. */
  const HIGH_DEVICES := Devices(0x4C_C000_0000, 0x1000, 0xFED0_0000, 0x400)

  /** The page of that framebuffer. */
  const LOST_PAGE: Page := 307 * 0x4_0000

  /** What the boot builds on this machine, with the frame array in the second region. */
  ghost function SmallTree(): Tree {
    SmallMapHosts();
    BootTree(SMALL_MAP, SMALL_STACK, SMALL_PML4, HIGH_DEVICES, 1)
  }

  lemma SmallMapSums()
    ensures TotalPages(SMALL_MAP) == 38 && UsablePages(SMALL_MAP) == 37 && MapBound(SMALL_MAP) == 21
    ensures Start(SMALL_MAP, 1) == 7 && Start(SMALL_MAP, 4) == 38
  {
    hide TotalPages, UsablePages, MapBound;
    var mm := SMALL_MAP;
    NoSums();
    assert mm[..1] == [] + [mm[0]] && mm[..2] == mm[..1] + [mm[1]] && mm[..3] == mm[..2] + [mm[2]];
    assert mm == mm[..3] + [mm[3]] == mm[..4];
    assert Bound(7) == 6 && Bound(15) == 6 && Bound(1) == 3;
    SumsStep([], mm[0]);
    SumsStep(mm[..1], mm[1]);
    SumsStep(mm[..2], mm[2]);
    SumsStep(mm[..3], mm[3]);
  }

  lemma NoSums()
    ensures TotalPages([]) == 0 && UsablePages([]) == 0 && MapBound([]) == 0
  {
  }

  lemma {:induction false} SumsStep(mm: seq<Descriptor>, d: Descriptor)
    ensures TotalPages(mm + [d]) == TotalPages(mm) + d.pages
    ensures UsablePages(mm + [d]) == UsablePages(mm) + if Usable(d.kind) then d.pages else 0
    ensures MapBound(mm + [d]) == MapBound(mm) + Bound(d.pages)
  {
    assert (mm + [d])[..|mm|] == mm;
  }

  /** The frames are the pages of the four regions. */
  lemma SmallMapFrames(j: nat)
    requires j < TotalPages(SMALL_MAP)
    ensures var f := FrameList(SMALL_MAP)[j];
      f <= 0x140 && if Usable(KindList(SMALL_MAP)[j]) then f < 39 && f % 16 != 7 else f == 0x140
  {
    hide FrameList, KindList, TotalPages, Start;
    var i, n := Locate(SMALL_MAP, j);
    FrameListAt(SMALL_MAP, i, n);
  }

  lemma SmallFramesLow()
    ensures forall f :: f in FrameList(SMALL_MAP) ==> f <= 0x140
  {
    hide FrameList, KindList, TotalPages;
    forall f | f in FrameList(SMALL_MAP)
      ensures f <= 0x140
    {
      var j :| 0 <= j < TotalPages(SMALL_MAP) && FrameList(SMALL_MAP)[j] == f;
      SmallMapFrames(j);
    }
  }

  lemma SmallMapHosts()
    ensures WellFormedMap(SMALL_MAP) && LargestConventional(SMALL_MAP, 4, 1) && RootReserved(SMALL_MAP, SMALL_PML4)
    ensures HostsArray(SMALL_MAP, 1) && StackMapped(SMALL_MAP, SMALL_STACK)
    ensures FrameList(SMALL_MAP)[0] == 0 && InitialState(SMALL_MAP, 1, SMALL_STACK, 0) == FREE
  {
    hide FrameList, KindList, TotalPages, Start;
    SmallMapSums();
    FrameListAt(SMALL_MAP, 0, 0);
    FrameListAt(SMALL_MAP, 2, 0);
    StartEnds(SMALL_MAP);
    assert SMALL_MAP[3].base / PAGE_SZ == 0x140;
    assert FrameList(SMALL_MAP)[Start(SMALL_MAP, 2)] == 24;
  }

  lemma SmallMapBoots(m: Mem, wideShift: bool)
    requires Zeroed(m, SMALL_PML4)
    ensures Bootable(m, SMALL_MAP, SMALL_STACK, SMALL_PML4, HIGH_DEVICES, wideShift, 1, 38)
  {
    hide FrameList, KindList, TotalPages, Start, UsablePages, MapBound, HostsArray, StackMapped, Zeroed,
         LargestConventional, RootReserved, WellFormedMap, InitialState, Bootable;
    SmallMapSums();
    SmallMapHosts();
    assert SMALL_MAP[..4] == SMALL_MAP;
    SmallFramesLow();
    EnoughMemoryBoots(m, SMALL_MAP, SMALL_STACK, SMALL_PML4, HIGH_DEVICES, wideShift, 1, 4);
  }

  /** A page that a run touches has its structures among those of the run. */
  lemma {:induction false} TouchedNodes(run: seq<Mapping>, v: nat)
    requires Touches(run, v)
    ensures PathNodes(v) <= Nodes(run)
  {
    hide NodeOf;
    var k :| 0 <= k < |run| && run[k].page == v;
    var last := |run| - 1;
    if k < last {
      assert run[..last][k].page == v;
      TouchedNodes(run[..last], v);
    }
  }

  lemma FramebufferNode(fs: seq<Frame>)
    requires forall f :: f in fs ==> f < 0x10_0000_0000
    ensures Node(2, 307) in Order(InitRun(fs, HIGH_DEVICES))
  {
    hide MemoryRun, Nodes, Order, Touches, Visits;
    var v := 307 * 0x4_0000;
    FramebufferVisited();
    MemoryRunTouches(fs, HIGH_DEVICES, v);
    TouchesAppend(MemoryRun(fs, HIGH_DEVICES), [Mapping(TEST_PAGE, 0)], v);
    TouchedNodes(InitRun(fs, HIGH_DEVICES), v);
    PrefixesAreQuotients(v);
    OrderIsNodes(InitRun(fs, HIGH_DEVICES));
  }

  lemma FramebufferVisited()
    ensures Visits(HIGH_DEVICES.framebuffer, HIGH_DEVICES.framebufferSize, 307 * 0x4_0000)
  {
    assert PageOf(PageAfter(HIGH_DEVICES.framebuffer, 0)) == 307 * 0x4_0000;
  }

  /** No structure of the small machine is in a frame that is 7 modulo 16. */
  lemma SmallStructures(m: Mem, wideShift: bool)
    requires Zeroed(m, SMALL_PML4)
    ensures forall n :: n in SmallTree().tables && n != ROOT ==>
      SmallTree().tables[n] < 39 && SmallTree().tables[n] % 16 != 7
    ensures Lookup(SmallTree().tables, ROOT) == Some(SMALL_PML4) && Lookup(SmallTree().tables, Node(3, 0)) == Some(0)
    ensures Node(2, 307) in SmallTree().tables
  {
    hide FrameList, KindList, TotalPages, Start, HostsArray, StackMapped, Zeroed, LargestConventional, RootReserved,
         InitRun, FreeList, Order, TestByteSafe, InitTree, SparesChild, Bootable, InitialState;
    SmallMapHosts();
    SmallMapBoots(m, wideShift);
    var s, run := InitialStateSeq(SMALL_MAP, 1, SMALL_STACK), InitRun(FramesOf(SMALL_MAP), HIGH_DEVICES);
    BootSafeExact(m, SMALL_MAP, SMALL_STACK, SMALL_PML4, HIGH_DEVICES, wideShift, 1, 38);
    ZeroFirstFreeBoots(m, SMALL_MAP, SMALL_STACK, SMALL_PML4, HIGH_DEVICES, wideShift, 1, 38);
    InitTreeInOrder(FramesOf(SMALL_MAP), SMALL_PML4, s, HIGH_DEVICES);
    SmallFramesLow();
    FramebufferNode(FramesOf(SMALL_MAP));
    forall n | n in SmallTree().tables && n != ROOT
      ensures SmallTree().tables[n] < 39 && SmallTree().tables[n] % 16 != 7
    {
      var r :| 0 <= r < |Order(run)| && Order(run)[r] == n;
      FreeIsSmall(FreeList(s)[r - 1]);
    }
  }

  lemma FreeIsSmall(j: nat)
    requires WellFormedMap(SMALL_MAP) && j < TotalPages(SMALL_MAP)
    requires InitialState(SMALL_MAP, 1, SMALL_STACK, j) == FREE
    ensures FrameList(SMALL_MAP)[j] < 39 && FrameList(SMALL_MAP)[j] % 16 != 7
  {
    hide FrameList, KindList, TotalPages;
    SmallMapFrames(j);
  }

  /** This machine boots, for either width of the read-back shift; frame 0 becomes the PDPT of the first 512 GiB, its
      entry 307 refers to the page directory of the framebuffer, and the self test makes it refer to page 7, 23 or 39,
      which no region holds. */
  lemma SelfTestCanStrike(m: Mem, wideShift: bool)
    requires Zeroed(m, SMALL_PML4)
    ensures Bootable(m, SMALL_MAP, SMALL_STACK, SMALL_PML4, HIGH_DEVICES, wideShift, 1, 38)
    ensures !TestByteSafe(SmallTree()) && StruckAt(SmallTree(), 3, LOST_PAGE)
    ensures var c := Child(SmallTree(), NodeOf(3, LOST_PAGE), 307); c.Some? && Moved(c.value) in {7, 23, 39}
  {
    hide SmallTree, TestByteSafe, Bootable, Zeroed, Prefix;
    SmallMapBoots(m, wideShift);
    SmallStructures(m, wideShift);
    PrefixesAreQuotients(LOST_PAGE);
    assert Child(SmallTree(), Node(3, 0), 307) == Some(SmallTree().tables[Node(2, 307)]);
    assert StruckAt(SmallTree(), 3, LOST_PAGE);
    if TestByteSafe(SmallTree()) {
      SafeIsUnstruck(SmallTree(), LOST_PAGE);
    }
  }

  lemma SmallTreeBoots()
    ensures WellFormedMap(SMALL_MAP) && |SMALL_MAP| == 4 && PHYS_WORDS == 0x2_0000_0000_0000
    ensures SmallTree() == BootTree(SMALL_MAP, SMALL_STACK, SMALL_PML4, HIGH_DEVICES, 1)
  {
    hide BootTree;
    SmallMapHosts();
  }

  lemma FramebufferPage(fs: seq<Frame>)
    ensures InitPage(fs, HIGH_DEVICES, LOST_PAGE) == Some(LOST_PAGE)
  {
    hide Visits;
    FramebufferVisited();
  }

  lemma FramebufferMapped()
    ensures Lookup(SmallTree().pages, LOST_PAGE) == Some(LOST_PAGE)
  {
    hide FrameList, TotalPages, BootTree, WellFormedMap, InitPage;
    SmallTreeBoots();
    SmallFramesLow();
    BootPages(SMALL_MAP, SMALL_STACK, SMALL_PML4, HIGH_DEVICES, 1);
    FramebufferPage(FramesOf(SMALL_MAP));
  }

  lemma SmallFootprint(m: Mem, wideShift: bool)
    requires Zeroed(m, SMALL_PML4)
    ensures WellFormedMap(SMALL_MAP)
    ensures forall f :: f in BootFootprint(SMALL_MAP, SMALL_STACK, SMALL_PML4, HIGH_DEVICES, 1) ==> f % 16 != 7
  {
    hide TotalPages, BootTree, Zeroed;
    SmallMapHosts();
    SmallMapSums();
    SmallStructures(m, wideShift);
  }

  /** If these three pages are zero, as unused memory may be, the framebuffer is mapped and yet not reached: the boot
      ends with a page fault waiting at the first pixel. */
  method BootSmallMachine(ram: array<Word>, wideShift: bool) returns (pages: PageTables)
    requires ram.Length == PHYS_WORDS && Zeroed(ram[..], SMALL_PML4)
    requires Zeroed(ram[..], 7) && Zeroed(ram[..], 23) && Zeroed(ram[..], 39)
    modifies ram
    ensures Lookup(pages.tree.pages, LOST_PAGE) == Some(LOST_PAGE) && Walk(ram[..], SMALL_PML4, LOST_PAGE) == None
    ensures pages.machine.ram == ram && pages.machine.cr3 == Some(SMALL_PML4)
  {
    hide *;
    ghost var m := ram[..];
    SmallTreeBoots();
    SelfTestCanStrike(m, wideShift);
    SmallFootprint(m, wideShift);
    FramebufferMapped();
    var b;
    pages, b := Boot(ram, SMALL_MAP, SMALL_STACK, SMALL_PML4, HIGH_DEVICES, wideShift, 1, 38);
    ghost var f := Moved(Child(SmallTree(), NodeOf(3, LOST_PAGE), 307).value);
    StaysZeroed(m, ram[..], BootFootprint(SMALL_MAP, SMALL_STACK, SMALL_PML4, HIGH_DEVICES, 1), f);
    ZeroedFaults(ram[..], 2, f, LOST_PAGE);
  }

  lemma StaysZeroed(m: Mem, k: Mem, fs: set<nat>, f: Frame)
    requires SameExcept(m, k, fs) && f !in fs && Zeroed(m, f)
    ensures Zeroed(k, f)
  {
    forall i: Index
      ensures EntryAt(k, f, i) == 0
    {
      SameExceptEntry(m, k, fs, f, i);
    }
  }

  lemma {:induction false} ZeroedFaults(m: Mem, level: nat, f: Frame, v: Page)
    requires Zeroed(m, f) && 1 <= level <= 4
    ensures WalkFrom(m, level, f, v) == None
  {
    hide IndexAt;
    assert EntryAt(m, f, IndexAt(level, v)) == 0;
  }
}

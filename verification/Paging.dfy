/** The page-table builder. */
module Paging {
  import opened Words
  import opened Mmu
  import opened MachineModel
  import opened FrameStates
  import opened FrameArray
  import opened MemoryMap
  import opened FrameLayout
  import opened BitFields
  import opened Pmem
  import opened PageTree
  import opened PagingState
  import opened PagingStart
  import opened MappingLog
  import opened Placement
  import opened IdentityRuns
  import opened SelfTest
  import opened InitMap

  /** Frames below this bound survive the read-back of a 32-bit address member shifted left by 12. */
  function TableLimit(wideShift: bool): nat { if wideShift then 0x1_0000_0000 else 0x10_0000 }

  /** The C expression `entry->X_addr << PAGE_OFFSET_BITS`, whose shift is 64 or 32 bits wide. */
  function ReadBack(e: Word, wideShift: bool): nat {
    if wideShift then AddrField(e) * PAGE_SZ else AddrField(e) * PAGE_SZ % 0x1_0000_0000
  }

  /** A table address written to an entry is read back unchanged exactly when it is below the limit. */
  lemma ReadBackExact(e: Word, f: Frame, wideShift: bool)
    ensures ReadBack(LinkWord(e, f), wideShift) == f * 4096 <==> f < if wideShift then 0x1_0000_0000 else 0x10_0000
  {
    hide WriteAddr, WritePresent, WriteRw, AddrField;
    WriteAddrFields(e, f);
    WritePresentFields(WriteAddr(e, f));
    WriteRwFields(WritePresent(WriteAddr(e, f)));
  }

  lemma EntryReadsBack(e: Word, level: nat, f: Frame, wideShift: bool)
    requires Says(e, level, Some(f)) && f < TableLimit(wideShift)
    ensures ReadBack(e, wideShift) / PAGE_SZ == f
  {
    FrameFieldSplit(e);
  }

  /** The builder at one moment: structures, calls so far, free frames for more structures, memory. */
  datatype Snapshot = Snapshot(tables: map<Node, Frame>, events: seq<Event>, free: nat, memory: Mem)

  /** From x exactly the identity mappings of `run` have led to y, without stores outside the allocator's array and the
      structures. */
  ghost predicate Leads(arrFrames: set<nat>, x: Snapshot, run: seq<Mapping>, y: Snapshot) {
    ROOT in x.tables.Keys && y.events == x.events + Calls(run)
    && y.tables.Keys == x.tables.Keys + Nodes(run) && y.free + Cost(x.tables.Keys, run) == x.free
    && arrFrames + x.tables.Values <= arrFrames + y.tables.Values
    && SameExcept(x.memory, y.memory, arrFrames + y.tables.Values)
  }

  lemma LeadsNowhere(arrFrames: set<nat>, x: Snapshot)
    requires ROOT in x.tables.Keys
    ensures Leads(arrFrames, x, [], x)
  {
    EmptyRun(x.tables.Keys);
    NoCalls(x.events);
  }

  /** One run and then another is both. */
  lemma LeadsOn(
    arrFrames: set<nat>, x: Snapshot, a: seq<Mapping>, y: Snapshot, b: seq<Mapping>, z: Snapshot)
    requires Leads(arrFrames, x, a, y) && Leads(arrFrames, y, b, z)
    ensures Leads(arrFrames, x, a + b, z)
  {
    hide Nodes, Cost, Calls, SameExcept;
    CostAppend(x.tables.Keys, a, b);
    NodesAppend(a, b);
    CallsAppend(a, b);
    assert x.events + Calls(a) + Calls(b) == x.events + (Calls(a) + Calls(b));
    assert x.tables.Keys + Nodes(a) + Nodes(b) == x.tables.Keys + (Nodes(a) + Nodes(b));
    SameExceptChain(x.memory, y.memory, z.memory, arrFrames + y.tables.Values, arrFrames + z.tables.Values);
  }

  /** What _identity_paging leaves in the history, in numbers: n/4097 + 1 pages, each mapped to its own frame as far as
      the 32 bits of the member go. */
  lemma {:induction false} AreaLog(before: seq<Event>, addr: Word, n: Word)
    ensures var all, k := before + Calls(PageRun(addr, RunLength(n))), |before|;
      n < 4097 * (|all| - k) <= n + 4097 && all[..k] == before
      && forall i :: k <= i < |all| ==>
           var a := (addr + 4096 * (i - k)) % 0x1_0000_0000_0000_0000;
           all[i] == Mapped(Mapping(a / 4096 % 0x10_0000_0000, a / 4096 % 0x1_0000_0000))
  {
    hide PageRun, RunLength;
    RunLengthExact(n);
    PageRunExact(addr, RunLength(n));
  }

  /** The managed frames in the history. */
  lemma {:induction false} FramesLog(before: seq<Event>, fs: seq<Frame>)
    ensures var all, k := before + Calls(FrameRun(fs)), |before|;
      |all| == k + |fs| && all[..k] == before
      && forall i :: k <= i < |all| ==>
           all[i] == Mapped(Mapping(fs[i - k] % 0x10_0000_0000, fs[i - k] % 0x1_0000_0000))
  {
    hide FrameRun;
    FrameRunExact(fs);
  }

  /** The device areas in the history: n/4097 + 1 pages of framebuffer, the local APIC's page 0xFEE00, and then as many
      pages of HPET registers. */
  lemma DevicesLog(before: seq<Event>, dev: Devices)
    ensures var all, k := before + Calls(DeviceRun(dev)), |before| + dev.framebufferSize / 4097 + 1;
      |all| == k + 1 + dev.hpetSize / 4097 + 1
      && all[..k] == before + Calls(PageRun(dev.framebuffer, dev.framebufferSize / 4097 + 1))
      && all[k] == Mapped(Mapping(0xF_EE00, 0xF_EE00))
      && all[k + 1..] == Calls(PageRun(dev.hpet, dev.hpetSize / 4097 + 1))
  {
    hide PageRun, DeviceRun;
    DeviceRunExact(dev);
    var run, j := DeviceRun(dev), RunLength(dev.framebufferSize);
    assert run == run[..j] + run[j..];
  }

  /** One more mapping. */
  ghost predicate Grows(arrFrames: set<nat>, y: Snapshot, e: Mapping, z: Snapshot) {
    z.events == y.events + [Mapped(e)] && z.tables.Keys == y.tables.Keys + PathNodes(e.page)
    && z.free == y.free - |PathNodes(e.page) - y.tables.Keys|
    && arrFrames + y.tables.Values <= arrFrames + z.tables.Values
    && SameExcept(y.memory, z.memory, arrFrames + z.tables.Values)
  }

  lemma LeadsStep(
    arrFrames: set<nat>, x: Snapshot, run: seq<Mapping>, y: Snapshot, e: Mapping, z: Snapshot)
    requires Leads(arrFrames, x, run, y) && Grows(arrFrames, y, e, z)
    ensures Leads(arrFrames, x, run + [e], z)
  {
    hide Nodes, Cost, Calls, SameExcept, PathNodes;
    CostStep(x.tables.Keys, run, e);
    LogStep(run, e);
    CallsStep(run, e);
    assert x.events + Calls(run + [e]) == x.events + Calls(run) + [Mapped(e)];
    SameExceptChain(x.memory, y.memory, z.memory, arrFrames + y.tables.Values, arrFrames + z.tables.Values);
  }

  lemma LeadsAffords(arrFrames: set<nat>, x: Snapshot, run: seq<Mapping>, y: Snapshot, e: Mapping)
    requires Leads(arrFrames, x, run, y) && Cost(x.tables.Keys, run + [e]) <= x.free
    ensures |PathNodes(e.page) - y.tables.Keys| <= y.free
  {
    hide Nodes, Cost, Calls, SameExcept, PathNodes;
    CostStep(x.tables.Keys, run, e);
  }

  class PageTables {
    const machine: Machine
    const pmem: PhysicalMemory
    /** The frame of the global array PML4. */
    const pml4: Frame
    /** Whether the compiler does the read-back shift in 64 bits. */
    const wideShift: bool
    ghost const config: Config
    /** The structures and the states of the frames before the first call. */
    ghost const start: Layout
    ghost var tree: Tree
    /** The mapping calls, and the allocator calls by other code, so far. */
    ghost var events: seq<Event>

    /** The builder right after init_physical_memory, with the PML4 in frame `root` still all zero. */
    constructor (pmem: PhysicalMemory, root: Frame, wideShift: bool, ghost low: nat, ghost d: nat)
      requires pmem.machine.Valid() && pmem.machine.cr3 == None
      requires WellFormedMap(pmem.memoryMap) && HostsArray(pmem.memoryMap, d) && pmem.Initialized(d)
      requires 32 <= pmem.frames && RootReserved(pmem.memoryMap, root) && Zeroed(pmem.machine.Mem(), root)
      requires LowFramesFit(pmem.memoryMap, pmem.StateSeq(), low, TableLimit(wideShift))
      ensures Valid() && this.pmem == pmem && this.wideShift == wideShift && events == [] && tree == EmptyTree(root)
      ensures config == StartConfig(pmem.memoryMap, d, root, TableLimit(wideShift), low)
      ensures pml4 == root && start == Layout(map[ROOT := root], pmem.StateSeq())
    {
      hide HostsArray, WellFormedMap, RootReserved, LowFramesFit, Zeroed, Direct, Sound, Count, States, Addrs,
           FrameList;
      machine, this.pmem, pml4, this.wideShift := pmem.machine, pmem, root, wideShift;
      config := StartConfig(pmem.memoryMap, d, root, TableLimit(wideShift), low);
      start := Layout(map[ROOT := root], pmem.StateSeq());
      tree, events := EmptyTree(root), [];
      StartSound(pmem.memoryMap, d, pmem.stack, pmem.StateSeq(), pmem.machine.Mem(), root, TableLimit(wideShift), low);
    }

    /** The allocator and the memory are in order, and agree with the fixed surroundings. */
    ghost predicate Attached()
      reads pmem, pmem.machine, pmem.machine.ram
    {
      pmem.machine == machine && pmem.Ready() && pmem.Counted()
      && AddrsAre(config.pfn, pmem.AddrSeq())
      && config.arrFrames == ArrayFrames(pmem.arr, pmem.frames)
      && config.limit == TableLimit(wideShift) && config.root == pml4
    }

    ghost predicate Consistent()
      reads `tree, pmem, pmem.machine, pmem.machine.ram
    {
      Attached() && Sound(config, machine.Mem(), tree, machine.cr3, pmem.StateSeq())
    }

    ghost function Placed(): Layout
      requires Attached()
      reads `tree, pmem, pmem.machine, pmem.machine.ram
    {
      Layout(tree.tables, pmem.StateSeq())
    }

    /** The mapping calls so far. */
    ghost function MappingsMade(): seq<Mapping>
      reads `events
    {
      Log(events)
    }

    /** The tree is the one that the mappings made so far call for, whatever allocator calls came in between, and
        every structure and every frame state is where the calls so far have put it. */
    ghost predicate Valid()
      reads `tree, `events, pmem, pmem.machine, pmem.machine.ram
    {
      Consistent() && tree.pages == Replay(MappingsMade()) && tree.tables.Keys == Nodes(MappingsMade())
      && start.tables == map[ROOT := pml4] && |start.states| == |config.pfn| && LegalEvents(events, |config.pfn|)
      && Placed() == Execute(config.pfn, start, events)
    }

    /** The number of free frames that may serve as structures. */
    ghost function LowFree(): nat
      requires Consistent()
      reads `tree, pmem, pmem.machine, pmem.machine.ram
    {
      Count(pmem.StateSeq()[..config.low], FREE)
    }

    /** The frames that mapping calls may store in: those of the allocator's array and of the structures. */
    ghost function Footprint(): set<nat>
      reads `tree
    {
      config.arrFrames + tree.tables.Values
    }

    /** pmem_request_frame, when a frame that can serve as a structure is left. */
    method RequestTable() returns (f: Frame)
      requires Consistent() && 0 < LowFree()
      modifies machine.ram, pmem`freeFrames, pmem`lockedFrames
      ensures Consistent() && Spare(config, tree, machine.cr3, pmem.StateSeq(), f)
      ensures LowFree() == old(LowFree()) - 1 && pmem.lockedFrames == old(pmem.lockedFrames) + 1
      ensures Grantable(config, old(pmem.StateSeq()), f)
      ensures NoMoreInUse(config, old(tree), old(pmem.StateSeq()), tree, pmem.StateSeq())
      ensures GrantsLowest(config, old(pmem.StateSeq()), f, pmem.StateSeq())
      ensures SameExcept(old(machine.Mem()), machine.Mem(), config.arrFrames)
    {
      hide Sound, Spare, NoMoreInUse, Grantable, Count, Step, FirstFree, States, Addrs, SameExcept, Direct, AddrsAre;
      ghost var s, m := pmem.StateSeq(), machine.Mem();
      var addr := pmem.RequestFrame();
      SoundRequest(config, m, machine.Mem(), tree, machine.cr3, s);
      AddrsAreAt(config.pfn, pmem.AddrSeq(), FirstFree(s));
      f := addr / PAGE_SZ;
    }

    /** Request and memset of a new structure. */
    method NewTable() returns (f: Frame)
      requires Consistent() && 0 < LowFree()
      modifies machine.ram, pmem`freeFrames, pmem`lockedFrames
      ensures Consistent() && Spare(config, tree, machine.cr3, pmem.StateSeq(), f) && Zeroed(machine.Mem(), f)
      ensures LowFree() == old(LowFree()) - 1 && pmem.lockedFrames == old(pmem.lockedFrames) + 1
      ensures Grantable(config, old(pmem.StateSeq()), f)
      ensures NoMoreInUse(config, old(tree), old(pmem.StateSeq()), tree, pmem.StateSeq())
      ensures GrantsLowest(config, old(pmem.StateSeq()), f, pmem.StateSeq())
      ensures SameExcept(old(machine.Mem()), machine.Mem(), config.arrFrames + {f})
    {
      hide Sound, Spare, NoMoreInUse, Grantable, GrantsLowest, Count, States, Addrs, SameExcept, Direct, Zeroed;
      ghost var m0 := machine.Mem();
      f := RequestTable();
      ghost var s, m := pmem.StateSeq(), machine.Mem();
      SpareDirect(config, m, tree, machine.cr3, s, f);
      machine.ZeroFrame(f);
      SoundZero(config, m, machine.Mem(), tree, machine.cr3, s, f);
      SameExceptWider(m, machine.Mem(), {f}, config.arrFrames + {f});
      SameExceptChain(m0, m, machine.Mem(), config.arrFrames, config.arrFrames + {f});
      ArrayElsewhere(m, machine.Mem(), {f}, pmem.arr, pmem.frames);
    }

    /** Sets entry i of `table` to the new structure n in frame `next`. */
    method LinkTable(table: Frame, i: Index, next: Frame, ghost n: Node)
      requires Consistent() && Spare(config, tree, machine.cr3, pmem.StateSeq(), next) && Zeroed(machine.Mem(), next)
      requires n !in tree.tables && 1 <= n.level < 4 && Parent(n) in tree.tables
      requires table == tree.tables[Parent(n)] && i == n.prefix % 512
      modifies machine.ram, `tree
      ensures Consistent() && tree == AddTable(old(tree), n, next) && LowFree() == old(LowFree())
      ensures pmem.StateSeq() == old(pmem.StateSeq()) && SameExcept(old(machine.Mem()), machine.Mem(), {table})
    {
      hide Sound, Spare, Count, States, Addrs, SameExcept, Direct, Zeroed, WriteAddr, WritePresent, LinkWord, Put,
           Maps;
      ghost var s, m, w := pmem.StateSeq(), machine.Mem(), LinkWord(EntryAt(machine.Mem(), table, i), next);
      TableMaps(config, m, tree, machine.cr3, s, Parent(n));
      LinkStages(config, m, tree, machine.cr3, s, n, next);
      TableStore(config, m, tree, AddTable(tree, n, next), machine.cr3, s, Parent(n), i, w);
      machine.SetEntry(table, i, next);
      tree := AddTable(tree, n, next);
      ArrayElsewhere(m, machine.Mem(), {table}, pmem.arr, pmem.frames);
    }

    /** The stage of map_vaddr_to_paddr at entry i of a PML4, PDPT or page directory: the structure that the
        entry refers to, created if the entry is not present. */
    method NextTable(table: Frame, i: Index, ghost n: Node) returns (next: Frame)
      requires Consistent() && 1 <= n.level < 4 && Parent(n) in tree.tables
      requires table == tree.tables[Parent(n)] && i == n.prefix % 512
      requires n !in tree.tables ==> 0 < LowFree()
      modifies machine.ram, pmem`freeFrames, pmem`lockedFrames, `tree
      ensures Consistent() && n in tree.tables && tree.tables[n] == next
      ensures tree == WithTable(old(tree), n, next)
      ensures LowFree() == old(LowFree()) - if n in old(tree).tables then 0 else 1
      ensures pmem.lockedFrames == old(pmem.lockedFrames) + if n in old(tree).tables then 0 else 1
      ensures NoMoreInUse(config, old(tree), old(pmem.StateSeq()), tree, pmem.StateSeq())
      ensures Placed() == Place(config.pfn, old(Placed()), n)
      ensures old(Footprint()) <= Footprint() && SameExcept(old(machine.Mem()), machine.Mem(), Footprint())
    {
      hide Sound, Spare, NoMoreInUse, Grantable, Count, States, Addrs, Direct, Zeroed, Maps, FrameField, AddrField,
           ReadBack, FirstFree, Step, SameExcept;
      TableMaps(config, machine.Mem(), tree, machine.cr3, pmem.StateSeq(), Parent(n));
      EntryOnPath(config, machine.Mem(), tree, machine.cr3, pmem.StateSeq(), n);
      var e := machine.Load(table, i);
      if !Present(e) {
        ghost var s, t, m := pmem.StateSeq(), tree, machine.Mem();
        next := NewTable();
        ghost var k := machine.Mem();
        LinkTable(table, i, next, n);
        NewTableInUse(config, t, s, pmem.StateSeq(), n, next);
        TablesAfterAdd(t, n, next);
        SameExceptWider(k, machine.Mem(), {table}, Footprint());
        SameExceptChain(m, k, machine.Mem(), config.arrFrames + {next}, Footprint());
      } else {
        SameExceptRefl(machine.Mem(), Footprint());
        SameInUse(config, tree, pmem.StateSeq());
        EntryReadsBack(e, n.level + 1, tree.tables[n], wideShift);
        next := ReadBack(e, wideShift) / PAGE_SZ;
      }
    }

    /** The last stage: entry i of a page table. */
    method SetPage(table: Frame, i: Index, paddr: Word, ghost v: Page)
      requires Consistent() && Node(1, v / 512) in tree.tables
      requires table == tree.tables[Node(1, v / 512)] && i == v % 512
      requires machine.cr3.Some? && InUse(config, tree, pmem.StateSeq(), v) ==> FrameOf(paddr) == v
      modifies machine.ram, `tree
      ensures Consistent() && tree == AddPage(old(tree), v, FrameOf(paddr)) && LowFree() == old(LowFree())
      ensures pmem.StateSeq() == old(pmem.StateSeq()) && SameExcept(old(machine.Mem()), machine.Mem(), {table})
    {
      hide Sound, Count, States, Addrs, SameExcept, Direct, WriteAddr, WritePresent, LinkWord, Put, Maps;
      ghost var s, m := pmem.StateSeq(), machine.Mem();
      ghost var w := LinkWord(EntryAt(m, table, i), paddr / PAGE_SZ);
      TableMaps(config, m, tree, machine.cr3, s, Node(1, v / 512));
      PageStages(config, m, tree, machine.cr3, s, v, paddr / PAGE_SZ);
      TableStore(config, m, tree, AddPage(tree, v, FrameOf(paddr)), machine.cr3, s, Node(1, v / 512), i, w);
      machine.SetEntry(table, i, paddr / PAGE_SZ);
      tree := AddPage(tree, v, FrameOf(paddr));
      ArrayElsewhere(m, machine.Mem(), {table}, pmem.arr, pmem.frames);
    }

    lemma RootOfTree()
      requires Consistent()
      ensures Attached() && machine.Valid() && Fits(pmem.arr, pmem.frames)
      ensures ROOT in tree.tables && tree.tables[ROOT] == pml4 && |Placed().states| == |config.pfn|
    {
    }

    lemma TreeIsWellFormed()
      requires Consistent()
      ensures WellFormed(tree, pml4)
    {
    }

    /** The stages for PML4, PDPT and page directory: the page table that serves page v. */
    method DescendToPageTable(indexes: VaddrIndexes, ghost v: Page) returns (pt: Frame)
      requires Consistent() && |PathNodes(v) - tree.tables.Keys| <= LowFree()
      requires indexes == VaddrIndexes(IndexAt(4, v), IndexAt(3, v), IndexAt(2, v), IndexAt(1, v))
      modifies machine.ram, pmem`freeFrames, pmem`lockedFrames, `tree
      ensures Consistent() && NodeOf(1, v) in tree.tables && tree.tables[NodeOf(1, v)] == pt
      ensures tree.pages == old(tree).pages && tree.tables.Keys == old(tree).tables.Keys + PathNodes(v)
      ensures var missing := |PathNodes(v) - old(tree).tables.Keys|;
        LowFree() == old(LowFree()) - missing && pmem.lockedFrames == old(pmem.lockedFrames) + missing
      ensures NoMoreInUse(config, old(tree), old(pmem.StateSeq()), tree, pmem.StateSeq())
      ensures Placed() == PlacePath(config.pfn, old(Placed()), v)
      ensures old(Footprint()) <= Footprint() && SameExcept(old(machine.Mem()), machine.Mem(), Footprint())
    {
      hide *;
      RootOfTree();
      PathPlaced(config.pfn, Placed(), v);
      PathOfPage(v);
      ghost var have := tree.tables.Keys;
      MissingNodes(have, v);
      ghost var t0, s0, m0 := tree, pmem.StateSeq(), machine.Mem();
      var pdpt := NextTable(pml4, indexes.pml4, NodeOf(3, v));
      ghost var t1, s1, m1, fs1 := tree, pmem.StateSeq(), machine.Mem(), Footprint();
      var pd := NextTable(pdpt, indexes.pdpt, NodeOf(2, v));
      InUseTrans(config, t0, s0, t1, s1, tree, pmem.StateSeq());
      SameExceptChain(m0, m1, machine.Mem(), fs1, Footprint());
      ghost var t2, s2, m2, fs2 := tree, pmem.StateSeq(), machine.Mem(), Footprint();
      pt := NextTable(pd, indexes.pd, NodeOf(1, v));
      InUseTrans(config, t0, s0, t2, s2, tree, pmem.StateSeq());
      SameExceptChain(m0, m2, machine.Mem(), fs2, Footprint());
      PathUnion(have, v);
    }

    /** The whole walk, in terms of the tree. */
    method MapPage(vaddr: Word, paddr: Word)
      requires Consistent() && |PathNodes(PageOf(vaddr)) - tree.tables.Keys| <= LowFree()
      requires machine.cr3.Some? && InUse(config, tree, pmem.StateSeq(), PageOf(vaddr)) ==>
        FrameOf(paddr) == PageOf(vaddr)
      modifies machine.ram, pmem`freeFrames, pmem`lockedFrames, `tree
      ensures Consistent() && tree.pages == old(tree).pages[PageOf(vaddr) := FrameOf(paddr)]
      ensures tree.tables.Keys == old(tree).tables.Keys + PathNodes(PageOf(vaddr))
      ensures var missing := |PathNodes(PageOf(vaddr)) - old(tree).tables.Keys|;
        LowFree() == old(LowFree()) - missing && pmem.lockedFrames == old(pmem.lockedFrames) + missing
      ensures Placed() == PlacePath(config.pfn, old(Placed()), PageOf(vaddr))
      ensures old(Footprint()) <= Footprint() && SameExcept(old(machine.Mem()), machine.Mem(), Footprint())
    {
      hide Sound, Prefix, Attached, PageOf, IndexesOf, FrameOf, LowFree, PathNodes, PlacePath, SameExcept;
      IndexesAreLevels(vaddr);
      PathOfPage(PageOf(vaddr));
      var indexes := ExtractVaddrPagingIndexes(vaddr);
      ghost var m := machine.Mem();
      var pt := DescendToPageTable(indexes, PageOf(vaddr));
      ghost var k := machine.Mem();
      SetPage(pt, indexes.pt, paddr, PageOf(vaddr));
      SameExceptWider(k, machine.Mem(), {pt}, Footprint());
      SameExceptChain(m, k, machine.Mem(), Footprint(), Footprint());
    }

    /** map_vaddr_to_paddr. Once CR3 is loaded, a frame in use must not be moved off its own page. */
    method MapVaddrToPaddr(vaddr: Word, paddr: Word)
      requires Valid() && |PathNodes(PageOf(vaddr)) - tree.tables.Keys| <= LowFree()
      requires machine.cr3.Some? && InUse(config, tree, pmem.StateSeq(), PageOf(vaddr)) ==>
        FrameOf(paddr) == PageOf(vaddr)
      modifies machine.ram, pmem`freeFrames, pmem`lockedFrames, `tree, `events
      ensures Valid() && events == old(events) + [Mapped(Mapping(PageOf(vaddr), FrameOf(paddr)))]
      ensures forall v: Page ::
        Walk(machine.Mem(), pml4, v)
        == if v == PageOf(vaddr) then Some(FrameOf(paddr)) else Walk(old(machine.Mem()), pml4, v)
      ensures tree.tables.Keys == old(tree).tables.Keys + PathNodes(PageOf(vaddr))
      ensures var missing := |PathNodes(PageOf(vaddr)) - old(tree).tables.Keys|;
        LowFree() == old(LowFree()) - missing && pmem.lockedFrames == old(pmem.lockedFrames) + missing
      ensures old(Footprint()) <= Footprint() && SameExcept(old(machine.Mem()), machine.Mem(), Footprint())
    {
      hide Sound, Attached, PageOf, FrameOf, LowFree, Replay, Nodes, PathNodes, Walk, Execute, PlacePath, Log,
           LegalEvents, SameExcept, Footprint;
      ghost var e := Mapping(PageOf(vaddr), FrameOf(paddr));
      ConsistentWalks();
      MapPage(vaddr, paddr);
      ConsistentWalks();
      LogStep(MappingsMade(), e);
      EventStep(config.pfn, start, events, Mapped(e));
      events := events + [Mapped(e)];
    }

    lemma ConsistentWalks()
      requires Consistent()
      ensures forall v: Page :: Walk(machine.Mem(), pml4, v) == Lookup(tree.pages, v)
    {
      WalksAreLookups(machine.Mem(), tree, pml4);
    }

    /** The call of the allocator itself. */
    method Perform(call: Call) returns (addr: Word)
      requires Attached() && Legal(call, pmem.frames)
      modifies machine.ram, pmem`freeFrames, pmem`lockedFrames, pmem`reservedFrames
      ensures Attached() && pmem.StateSeq() == Step(old(pmem.StateSeq()), call)
      ensures SameExcept(old(machine.Mem()), machine.Mem(), config.arrFrames)
      ensures call.Request? ==> addr == Requested(old(pmem.AddrSeq()), old(pmem.StateSeq()))
    {
      hide States, Addrs, Direct, SameExcept, FirstFree, Count, Step, Requested;
      addr := 0;
      match call {
        case Request =>
          addr := pmem.RequestFrame();
        case Lock(i) =>
          pmem.LockFrame(i);
        case Free(i) =>
          pmem.FreeFrame(i);
        case Reserve(i) =>
          pmem.ReserveFrame(i);
        case Unreserve(i) =>
          pmem.UnreserveFrame(i);
      }
    }

    /** A call of the allocator by other code, which changes no translation; the result is that of a request. */
    method AllocatorCall(call: Call) returns (addr: Word)
      requires Valid() && Permitted(config, tree, machine.cr3, call)
      modifies machine.ram, pmem`freeFrames, pmem`lockedFrames, pmem`reservedFrames, `events
      ensures Valid() && events == old(events) + [Called(call)] && tree == old(tree)
      ensures forall v: Page :: Walk(machine.Mem(), pml4, v) == Walk(old(machine.Mem()), pml4, v)
      ensures call.Request? ==> addr == Requested(old(pmem.AddrSeq()), old(pmem.StateSeq()))
      ensures SameExcept(old(machine.Mem()), machine.Mem(), config.arrFrames)
    {
      hide Sound, Attached, Walk, Execute, Log, LegalEvents, Replay, Nodes, SameExcept, Step, Permitted, Requested;
      ValidFacts();
      ConsistentWalks();
      SoundOneCall(config, machine.Mem(), tree, machine.cr3, pmem.StateSeq(), call);
      EventStep(config.pfn, start, events, Called(call));
      assert MappingsMade() + [] == MappingsMade();
      addr := Perform(call);
      events := events + [Called(call)];
      ConsistentWalks();
    }

    /** Over any interleaving of mapping calls and allocator calls by other code: the processor's walk gives for each
        page the frame it was last mapped to, and a page fault exactly if it was never mapped. */
    lemma RunTranslates(v: Page)
      requires Valid()
      ensures var log := MappingsMade();
        Walk(machine.Mem(), pml4, v).None? <==> forall k :: 0 <= k < |log| ==> log[k].page != v
      ensures var log := MappingsMade();
        forall k :: 0 <= k < |log| && log[k].page == v && (forall j :: k < j < |log| ==> log[j].page != v) ==>
          Walk(machine.Mem(), pml4, v) == Some(log[k].frame)
    {
      hide Walk, Replay, Nodes, Execute, Log;
      ConsistentWalks();
      ReplayIsLast(MappingsMade(), v);
    }

    /** Over any run of mapping calls: the frames taken are the distinct 9-, 18- and 27-bit prefixes of the pages. */
    lemma RunAccounting()
      requires Valid() && forall e :: e in events ==> e.Mapped?
      ensures var log := MappingsMade();
        pmem.lockedFrames - Count(start.states, LOCKED)
        == |Prefixes(log, 3)| + |Prefixes(log, 2)| + |Prefixes(log, 1)|
    {
      hide Count, Execute, Log, Nodes, Prefixes, States, Addrs;
      NodesSize(MappingsMade());
      ExecuteAccounts(config.pfn, start, events);
      assert |tree.tables| == |tree.tables.Keys|;
    }

    /** With CR3 loaded every structure, old or new, every frame of the allocator's array and every frame that a
        request may hand out is reached at its own address. */
    lemma EverythingSelfMapped()
      requires Valid() && machine.cr3.Some?
      ensures machine.cr3 == Some(pml4)
      ensures forall f: Frame :: InUse(config, tree, pmem.StateSeq(), f) ==>
        f < 0x10_0000_0000 && Walk(machine.Mem(), pml4, f) == Some(f)
    {
      hide Walk, Encodes, AllWritable, Owned, WellFormed, InUse;
      ConsistentWalks();
    }

    /** Entry i of a structure, followed as far as it goes: None where is_page_present returns false. */
    method PeekTable(table: Frame, i: Index, ghost n: Node) returns (next: Option<Frame>)
      requires Consistent() && 1 <= n.level < 4 && Parent(n) in tree.tables
      requires table == tree.tables[Parent(n)] && i == n.prefix % 512
      ensures next == Lookup(tree.tables, n)
    {
      hide Sound, States, Addrs, Direct, Maps, FrameField, AddrField, ReadBack;
      TableMaps(config, machine.Mem(), tree, machine.cr3, pmem.StateSeq(), Parent(n));
      EntryOnPath(config, machine.Mem(), tree, machine.cr3, pmem.StateSeq(), n);
      var e := machine.Load(table, i);
      if !Present(e) {
        return None;
      }
      EntryReadsBack(e, n.level + 1, tree.tables[n], wideShift);
      next := Some(ReadBack(e, wideShift) / PAGE_SZ);
    }

    /** The page table that serves page v, if the structures on the way to it exist. */
    method FindPageTable(indexes: VaddrIndexes, ghost v: Page) returns (pt: Option<Frame>)
      requires Consistent()
      requires indexes == VaddrIndexes(IndexAt(4, v), IndexAt(3, v), IndexAt(2, v), IndexAt(1, v))
      ensures if pt.Some? then NodeOf(1, v) in tree.tables && tree.tables[NodeOf(1, v)] == pt.value
              else v !in tree.pages
    {
      hide *;
      RootOfTree();
      TreeIsWellFormed();
      PathOfPage(v);
      var pdpt := PeekTable(pml4, indexes.pml4, NodeOf(3, v));
      if pdpt == None {
        MissingBelow(tree, pml4, 3, v);
        return None;
      }
      var pd := PeekTable(pdpt.value, indexes.pdpt, NodeOf(2, v));
      if pd == None {
        MissingBelow(tree, pml4, 2, v);
        return None;
      }
      pt := PeekTable(pd.value, indexes.pd, NodeOf(1, v));
      if pt == None {
        MissingBelow(tree, pml4, 1, v);
      }
    }

    method IsPagePresent(vaddr: Word) returns (present: bool)
      requires Consistent()
      ensures present <==> Walk(machine.Mem(), pml4, PageOf(vaddr)).Some?
    {
      hide *;
      ghost var v := PageOf(vaddr);
      ConsistentWalks();
      IndexesAreLevels(vaddr);
      PathOfPage(v);
      var indexes := ExtractVaddrPagingIndexes(vaddr);
      var pt := FindPageTable(indexes, v);
      if pt == None {
        return false;
      }
      present := PeekPage(pt.value, indexes.pt, v);
    }

    method PeekPage(table: Frame, i: Index, ghost v: Page) returns (present: bool)
      requires Consistent() && Node(1, v / 512) in tree.tables
      requires table == tree.tables[Node(1, v / 512)] && i == v % 512
      ensures present <==> v in tree.pages
    {
      TableMaps(config, machine.Mem(), tree, machine.cr3, pmem.StateSeq(), Node(1, v / 512));
      EntryIsPage(machine.Mem(), tree, v);
      var e := machine.Load(table, i);
      present := Present(e);
    }

    // -------------------------------------------------------------- identity paging

    ghost function Now(): Snapshot
      requires Consistent()
      reads this, pmem, machine, pmem.machine, pmem.machine.ram
    {
      Snapshot(tree.tables, events, LowFree(), machine.Mem())
    }

    /** With paging off, exactly the identity mappings of `run` have been made since moment x. */
    ghost predicate Progress(x: Snapshot, run: seq<Mapping>)
      reads this, pmem, machine, pmem.machine, pmem.machine.ram
    {
      Valid() && machine.cr3 == None && Leads(config.arrFrames, x, run, Now())
    }

    lemma ValidFacts()
      requires Valid()
      ensures Consistent() && machine.Valid() && Fits(pmem.arr, pmem.frames)
      ensures ROOT in tree.tables.Keys && pmem.frames == |config.pfn|
    {
    }

    lemma NoProgress()
      requires Valid() && machine.cr3 == None
      ensures Consistent() && Progress(Now(), [])
    {
      hide Leads;
      LeadsNowhere(config.arrFrames, Now());
    }

    /** One identity mapping, as the next element of a run. */
    method MapNext(addr: Word, ghost x: Snapshot, ghost run: seq<Mapping>)
      requires Progress(x, run) && Cost(x.tables.Keys, run + [IdentityMapping(addr)]) <= x.free
      modifies machine.ram, pmem`freeFrames, pmem`lockedFrames, `tree, `events
      ensures Progress(x, run + [IdentityMapping(addr)])
    {
      hide Valid, Consistent, LowFree, Leads, PageOf, FrameOf, PathNodes, Walk, Cost, SameExcept;
      ghost var e := IdentityMapping(addr);
      ValidFacts();
      ghost var y := Now();
      LeadsAffords(config.arrFrames, x, run, y, e);
      MapVaddrToPaddr(addr, addr);
      ValidFacts();
      LeadsStep(config.arrFrames, x, run, y, e, Now());
    }

    /** _identity_paging: n/4097 + 1 pages from addr on. */
    method IdentityPaging(addr: Word, n: Word)
      requires Valid() && machine.cr3 == None
      requires Cost(tree.tables.Keys, PageRun(addr, RunLength(n))) <= LowFree()
      modifies machine.ram, pmem`freeFrames, pmem`lockedFrames, `tree, `events
      ensures var k := |old(events)|;
        k <= |events| && n < 4097 * (|events| - k) <= n + 4097
      ensures Progress(old(Now()), PageRun(addr, RunLength(n)))
    {
      hide Valid, Consistent, LowFree, Cost, IdentityMapping, PageRun, PageAfter, Progress;
      NoProgress();
      ghost var x, k := Now(), RunLength(n);
      PageRunStart(addr);
      var a := addr;
      var i := 0;
      while i < n / (PAGE_SZ + 1) + 1
        invariant i <= k && a == PageAfter(addr, i) && Progress(x, PageRun(addr, i))
      {
        PageRunStep(x.tables.Keys, addr, i, k);
        MapNext(a, x, PageRun(addr, i));
        a := (a + PAGE_SZ) % 0x1_0000_0000_0000_0000;
        i := i + 1;
      }
      ProgressLog(x, PageRun(addr, k));
      AreaLog(x.events, addr, n);
    }

    lemma ProgressLog(x: Snapshot, run: seq<Mapping>)
      requires Progress(x, run)
      ensures events == x.events + Calls(run)
    {
    }

    /** kernel.pmem->array[i].frame_addr */
    method FrameAddr(i: nat, ghost x: Snapshot, ghost run: seq<Mapping>) returns (addr: Word)
      requires Progress(x, run) && i < pmem.frames
      ensures i < |config.pfn| && addr == AddrOfFrame(config.pfn[i])
    {
      addr := pmem.GetFrameAddr(i);
    }

    /** The first loop of _identity_paging_memory; the states of the array change under it. */
    method IdentityPagingFrames()
      requires Valid() && machine.cr3 == None && Cost(tree.tables.Keys, FrameRun(config.pfn)) <= LowFree()
      modifies machine.ram, pmem`freeFrames, pmem`lockedFrames, `tree, `events
      ensures Progress(old(Now()), FrameRun(config.pfn))
    {
      hide *;
      ValidFacts();
      NoProgress();
      ghost var x, fs := Now(), config.pfn;
      SnapshotNow();
      FrameRunStart(fs);
      var i := 0;
      while i < pmem.frames
        invariant i <= pmem.frames && Progress(x, FrameRun(fs[..i]))
      {
        var addr := FrameAddr(i, x, FrameRun(fs[..i]));
        FrameRunStep(x.tables.Keys, fs, i);
        MapNext(addr, x, FrameRun(fs[..i]));
        i := i + 1;
      }
      assert fs[..i] == fs;
    }

    lemma SnapshotNow()
      requires Consistent()
      ensures Now().tables == tree.tables && Now().free == LowFree() && Now().events == events
      ensures Now().memory == machine.Mem()
    {
    }

    /** Progress on one run and then on another is progress on both. */
    lemma ProgressOn(x: Snapshot, a: seq<Mapping>, y: Snapshot, b: seq<Mapping>)
      requires Leads(config.arrFrames, x, a, y) && Progress(y, b)
      ensures Progress(x, a + b)
    {
      hide Valid, Leads;
      ValidFacts();
      LeadsOn(config.arrFrames, x, a, y, b, Now());
    }

    method IdentityPagingDevices(dev: Devices)
      requires Valid() && machine.cr3 == None && Cost(tree.tables.Keys, DeviceRun(dev)) <= LowFree()
      modifies machine.ram, pmem`freeFrames, pmem`lockedFrames, `tree, `events
      ensures Mapped(Mapping(0xF_EE00, 0xF_EE00)) in events
      ensures Progress(old(Now()), DeviceRun(dev))
    {
      hide Valid, Consistent, LowFree, Nodes, Cost, PageRun, RunLength, Calls, Leads, Progress, DeviceRun;
      NoProgress();
      ghost var x := Now();
      ghost var a := PageRun(dev.framebuffer, RunLength(dev.framebufferSize));
      ghost var b := PageRun(APIC_BASE_ADDR, RunLength(PAGE_SZ));
      ghost var c := PageRun(dev.hpet, RunLength(dev.hpetSize));
      DeviceRunCost(x.tables.Keys, dev);
      IdentityPaging(dev.framebuffer, dev.framebufferSize);
      ghost var y := ProgressNow(x, a);
      IdentityPaging(APIC_BASE_ADDR, PAGE_SZ);
      ghost var z := ProgressNow(y, b);
      ProgressOn(x, a, y, b);
      ProgressLeads(x, a + b);
      IdentityPaging(dev.hpet, dev.hpetSize);
      ProgressOn(x, a + b, z, c);
      ApicLogged(x, dev);
    }

    lemma ApicLogged(x: Snapshot, dev: Devices)
      requires Progress(x, DeviceRun(dev))
      ensures Mapped(Mapping(0xF_EE00, 0xF_EE00)) in events
    {
      hide DeviceRun, Calls, PageRun;
      ProgressLog(x, DeviceRun(dev));
      DevicesLog(x.events, dev);
    }

    lemma ProgressLeads(x: Snapshot, run: seq<Mapping>)
      requires Progress(x, run)
      ensures Consistent() && Leads(config.arrFrames, x, run, Now())
    {
    }

    /** The present moment, after a run. */
    lemma ProgressNow(x: Snapshot, run: seq<Mapping>) returns (y: Snapshot)
      requires Progress(x, run)
      ensures Valid() && Consistent() && machine.cr3 == None && y == Now() && Leads(config.arrFrames, x, run, y)
      ensures y.tables == tree.tables && y.free == LowFree()
      ensures tree.tables.Keys == x.tables.Keys + Nodes(run) && LowFree() + Cost(x.tables.Keys, run) == x.free
    {
      y := Now();
    }

    method IdentityPagingMemory(dev: Devices)
      requires Valid() && machine.cr3 == None && Cost(tree.tables.Keys, MemoryRun(config.pfn, dev)) <= LowFree()
      modifies machine.ram, pmem`freeFrames, pmem`lockedFrames, `tree, `events
      ensures Progress(old(Now()), MemoryRun(config.pfn, dev))
    {
      hide Valid, Consistent, LowFree, Nodes, Cost, FrameRun, DeviceRun, Calls, SameExcept;
      NoProgress();
      ghost var x, a, b := Now(), FrameRun(config.pfn), DeviceRun(dev);
      CostAppend(x.tables.Keys, a, b);
      IdentityPagingFrames();
      ValidFacts();
      ghost var y := Now();
      IdentityPagingDevices(dev);
      ProgressOn(x, a, y, b);
    }

    // -------------------------------------------------------------- init_paging

    /** set_cr3_register: from here on every access of the kernel goes through the tables. */
    method LoadCr3()
      requires Valid() && machine.cr3 == None
      requires forall f :: f in config.pfn ==> SelfPage(tree, f)
      modifies machine`cr3
      ensures Valid() && machine.cr3 == Some(pml4) && machine.Mem() == old(machine.Mem()) && LowFree() == old(LowFree())
    {
      hide Sound, Direct, States, Addrs, Count, Replay, Nodes, Execute, Log;
      SoundCr3(config, machine.Mem(), tree, pmem.StateSeq());
      machine.cr3 := Some(pml4);
    }

    /** *test_addr_ptr = 123 */
    method WriteTestByte()
      requires Consistent() && Walk(machine.Mem(), pml4, TEST_PAGE) == Some(0) && machine.cr3 == Some(pml4)
      modifies machine.ram
      ensures machine.Mem() == TestStore(old(machine.Mem()))
      ensures Attached() <==> Direct(machine.Mem(), machine.cr3, config.arrFrames)
      ensures Attached() ==> pmem.StateSeq() == old(pmem.StateSeq())
    {
      hide Sound, WithByte, States, Addrs, Count, Direct, TranslatesTo, Walk, TestStore;
      ghost var m := machine.Mem();
      TestByteReadBack(m, pml4);
      machine.StoreByte(TEST_ADDR, TEST_BYTE, 0x999);
      TestStoreArray(m, pmem.arr, pmem.frames);
    }

    /** The store and the load through the test mapping: the byte is read back, and the page tables are what they were
        exactly if the byte was safe. */
    method AccessTestPage() returns (b: Option<nat>)
      requires Valid() && machine.cr3 == Some(pml4) && TEST_PAGE in tree.pages && tree.pages[TEST_PAGE] == 0
      modifies machine.ram
      ensures machine.Mem() == TestStore(old(machine.Mem())) && b == Some(TEST_BYTE)
      ensures Valid() <==> TestByteSafe(tree)
      ensures TestByteSafe(tree) ==> LowFree() == old(LowFree())
    {
      hide Sound, WithByte, ByteAt, States, Addrs, Count, Direct, TranslatesTo, Walk, TestStore, TestByteSafe,
           Replay, Nodes, Execute, Log;
      ghost var m, s := machine.Mem(), pmem.StateSeq();
      ConsistentWalks();
      TestByteReadBack(m, pml4);
      SoundTestStore(config, m, tree, machine.cr3, s);
      WriteTestByte();
      b := machine.LoadByte(TEST_ADDR);
    }

    lemma TestPageUnused()
      requires Valid() && TEST_PAGE !in config.pfn
      ensures !InUse(config, tree, pmem.StateSeq(), TEST_PAGE)
    {
      if InUse(config, tree, pmem.StateSeq(), TEST_PAGE) {
        InUseManaged(config, tree, pmem.StateSeq(), TEST_PAGE);
      }
    }

    /** init_paging up to its test access. */
    method EnablePaging(dev: Devices)
      requires Valid() && machine.cr3 == None && events == []
      requires forall f :: f in config.pfn ==> f < 0x1_0000_0000
      requires TEST_PAGE !in config.pfn && Cost(tree.tables.Keys, InitRun(config.pfn, dev)) <= LowFree()
      modifies machine`cr3, machine.ram, pmem`freeFrames, pmem`lockedFrames, `tree, `events
      ensures Valid() && machine.cr3 == Some(pml4) && events == Calls(InitRun(config.pfn, dev))
      ensures LowFree() == old(LowFree()) - Cost(old(tree.tables.Keys), InitRun(config.pfn, dev))
      ensures SameExcept(old(machine.Mem()), machine.Mem(), Footprint())
    {
      hide Valid, Consistent, LowFree, Nodes, Cost, MemoryRun, PathNodes, Walk, Calls, SelfPage, InUse, FrameOf,
           PageOf, SameExcept;
      ValidFacts();
      ghost var run, e, m := MemoryRun(config.pfn, dev), Mapping(TEST_PAGE, 0), machine.Mem();
      InitRunCost(tree.tables.Keys, config.pfn, dev);
      IdentityPagingMemory(dev);
      assert [] + Calls(run) == Calls(run);
      ManagedSelfMapped(dev);
      LoadCr3();
      TestMapping();
      TestPageUnused();
      ghost var k, fs := machine.Mem(), Footprint();
      MapVaddrToPaddr(TEST_ADDR, 0);
      CallsStep(run, e);
      SameExceptChain(m, k, machine.Mem(), fs, Footprint());
    }

    lemma ManagedSelfMapped(dev: Devices)
      requires Valid() && events == Calls(MemoryRun(config.pfn, dev))
      requires forall f :: f in config.pfn ==> f < 0x1_0000_0000
      ensures forall f :: f in config.pfn ==> SelfPage(tree, f)
    {
      hide Consistent, Execute, Log, LegalEvents, Replay, MemoryRun, Calls, Nodes;
      LogOfCalls(MemoryRun(config.pfn, dev));
      forall f: Frame | f in config.pfn
        ensures f in tree.pages && tree.pages[f] == f
      {
        MemoryRunMapsManaged(config.pfn, dev, f);
      }
    }

    /** init_paging. The tree it builds is a function of what it finds. The self test always reads its byte back; it
        leaves the tables intact exactly if the byte was safe, and in any case the pages it does not strike. */
    method InitPaging(dev: Devices) returns (b: Option<nat>)
      requires Valid() && machine.cr3 == None && events == []
      requires forall f :: f in config.pfn ==> f < 0x1_0000_0000
      requires TEST_PAGE !in config.pfn && Cost(tree.tables.Keys, InitRun(config.pfn, dev)) <= LowFree()
      modifies machine`cr3, machine.ram, pmem`freeFrames, pmem`lockedFrames, `tree, `events
      ensures machine.cr3 == Some(pml4) && events == Calls(InitRun(config.pfn, dev)) && b == Some(TEST_BYTE)
      ensures tree == InitTree(config.pfn, pml4, old(pmem.StateSeq()), dev)
      ensures Valid() <==> TestByteSafe(tree)
      ensures TestByteSafe(tree) ==>
        LowFree() == old(LowFree()) - Cost(old(tree.tables.Keys), InitRun(config.pfn, dev))
      ensures TestByteSafe(tree) <==> forall v: Page :: !Struck(tree, v)
      ensures forall v: Page :: !Struck(tree, v) ==> Walk(machine.Mem(), pml4, v) == Lookup(tree.pages, v)
      ensures forall level: nat, v: Page :: StruckAt(tree, level, v) ==>
        Walk(machine.Mem(), pml4, v)
        == WalkFrom(machine.Mem(), level - 1, Moved(Child(tree, NodeOf(level, v), 307).value), v)
      ensures SameExcept(old(machine.Mem()), machine.Mem(), Footprint() + {0})
    {
      hide Valid, Consistent, LowFree, Nodes, Cost, InitRun, Walk, WalkFrom, TestByteSafe, TestStore, Struck,
           StruckAt, Calls, InitTree, Child, SameExcept;
      AtStart();
      ghost var m := machine.Mem();
      EnablePaging(dev);
      TreeOfInit(dev);
      TreeIntact();
      TestStoreSameExcept(m, machine.Mem(), Footprint());
      b := AccessTestPage();
    }

    lemma AtStart()
      requires Valid() && events == []
      ensures Consistent() && machine.Valid() && start == Placed()
    {
    }

    lemma TreeOfInit(dev: Devices)
      requires Valid() && events == Calls(InitRun(config.pfn, dev))
      ensures |start.states| == |config.pfn| && start.tables == map[ROOT := pml4]
      ensures tree == InitTree(config.pfn, pml4, start.states, dev)
      ensures TEST_PAGE in tree.pages && tree.pages[TEST_PAGE] == 0
    {
      hide Consistent, Execute, Log, LegalEvents, Replay, InitRun, Calls, Nodes;
      LogOfCalls(InitRun(config.pfn, dev));
      InitRunTranslates(config.pfn, dev, TEST_PAGE);
    }

    /** What the test store leaves of the translations. */
    lemma TreeIntact()
      requires Valid()
      ensures TestByteSafe(tree) <==> forall v: Page :: !Struck(tree, v)
      ensures forall v: Page :: !Struck(tree, v) ==> Walk(TestStore(machine.Mem()), pml4, v) == Lookup(tree.pages, v)
      ensures forall level: nat, v: Page :: StruckAt(tree, level, v) ==>
        Walk(TestStore(machine.Mem()), pml4, v)
        == WalkFrom(TestStore(machine.Mem()), level - 1, Moved(Child(tree, NodeOf(level, v), 307).value), v)
    {
      hide Walk, WalkFrom, TestStore, Struck, StruckAt, TestByteSafe, Encodes, Execute, Log, LegalEvents, Replay, Nodes;
      SafeStrikesNone(tree, pml4);
      UnstruckWalks(machine.Mem(), tree, pml4);
      StruckWalks(machine.Mem(), tree, pml4);
    }
  }
}

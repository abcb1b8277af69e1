/** What init_paging leaves, as functions of what it finds: the page map, and whether the self test damages it. */
module InitMap {
  import opened Arithmetic
  import opened Words
  import opened Mmu
  import opened FrameStates
  import opened PageTree
  import opened MappingLog
  import opened Placement
  import opened IdentityRuns
  import opened SelfTest
  import opened FrameNeeds

  // ---------------------------------------------------------------- the page map

  ghost predicate Touches(run: seq<Mapping>, v: nat) {
    exists k :: 0 <= k < |run| && run[k].page == v
  }

  /** The translation of page v: the test page goes to frame 0, a managed frame and a page of a device area to the frame
      of its own number, cut to 32 bits, and nothing else is mapped. */
  ghost function InitPage(fs: seq<Frame>, dev: Devices, v: nat): Option<Frame> {
    if v == TEST_PAGE then Some(0)
    else if v in fs || Visits(dev.framebuffer, dev.framebufferSize, v) || Visits(APIC_BASE_ADDR, PAGE_SZ, v)
            || Visits(dev.hpet, dev.hpetSize, v)
    then Some(v % 0x1_0000_0000)
    else None
  }

  /** The page map in numbers: test page, managed frames, framebuffer, the local APIC's page and the HPET registers. */
  lemma InitPageExact(fs: seq<Frame>, dev: Devices, v: Page)
    ensures InitPage(fs, dev, v)
      == if v == 0x9999_9999 then Some(0)
         else if v in fs || 4097 * ((v - dev.framebuffer / 4096) % 0x10_0000_0000) <= dev.framebufferSize
                 || v == 0xF_EE00 || 4097 * ((v - dev.hpet / 4096) % 0x10_0000_0000) <= dev.hpetSize
         then Some(v % 0x1_0000_0000)
         else None
  {
    hide Visits;
    VisitsExact(dev.framebuffer, dev.framebufferSize, v);
    VisitsExact(APIC_BASE_ADDR, PAGE_SZ, v);
    VisitsExact(dev.hpet, dev.hpetSize, v);
  }

  lemma TouchesAppend(a: seq<Mapping>, b: seq<Mapping>, v: nat)
    ensures Touches(a + b, v) <==> Touches(a, v) || Touches(b, v)
  {
    if Touches(a, v) {
      var k :| 0 <= k < |a| && a[k].page == v;
      assert (a + b)[k].page == v;
    }
    if Touches(b, v) {
      var k :| 0 <= k < |b| && b[k].page == v;
      assert (a + b)[|a| + k].page == v;
    }
  }

  lemma {:induction false} PageRunTouches(addr: Word, n: Word, v: nat)
    ensures Touches(PageRun(addr, RunLength(n)), v) <==> Visits(addr, n, v)
  {
    hide PageRun, PageAfter, FrameOf, PageOf, RunLength;
    PageRunAt(addr, RunLength(n));
    var run := PageRun(addr, RunLength(n));
    if Visits(addr, n, v) {
      var i :| 0 <= i < RunLength(n) && PageOf(PageAfter(addr, i)) == v;
      assert run[i].page == v;
    }
    if Touches(run, v) {
      var k :| 0 <= k < |run| && run[k].page == v;
      assert PageOf(PageAfter(addr, k)) == v;
    }
  }

  lemma {:induction false} FrameRunTouches(fs: seq<Frame>, v: nat)
    requires forall f :: f in fs ==> f < 0x10_0000_0000
    ensures Touches(FrameRun(fs), v) <==> v in fs
  {
    hide FrameRun, IdentityMapping, AddrOfFrame;
    FrameRunAt(fs);
    forall k | 0 <= k < |fs|
      ensures FrameRun(fs)[k].page == fs[k]
    {
      assert fs[k] in fs;
      FrameMappingPage(fs[k]);
    }
    if v in fs {
      var k :| 0 <= k < |fs| && fs[k] == v;
      assert FrameRun(fs)[k].page == v;
    }
  }

  lemma MemoryRunTouches(fs: seq<Frame>, dev: Devices, v: nat)
    requires forall f :: f in fs ==> f < 0x10_0000_0000
    ensures Touches(MemoryRun(fs, dev), v)
      <==> v in fs || Visits(dev.framebuffer, dev.framebufferSize, v) || Visits(APIC_BASE_ADDR, PAGE_SZ, v)
           || Visits(dev.hpet, dev.hpetSize, v)
  {
    hide FrameRun, PageRun, RunLength, Touches, Visits;
    var a, b := PageRun(dev.framebuffer, RunLength(dev.framebufferSize)), PageRun(APIC_BASE_ADDR, RunLength(PAGE_SZ));
    var c := PageRun(dev.hpet, RunLength(dev.hpetSize));
    TouchesAppend(FrameRun(fs), a + b + c, v);
    TouchesAppend(a + b, c, v);
    TouchesAppend(a, b, v);
    FrameRunTouches(fs, v);
    PageRunTouches(dev.framebuffer, dev.framebufferSize, v);
    PageRunTouches(APIC_BASE_ADDR, PAGE_SZ, v);
    PageRunTouches(dev.hpet, dev.hpetSize, v);
  }

  /** The mappings of init_paging, one after the other, leave exactly that page map. */
  lemma InitRunMap(fs: seq<Frame>, dev: Devices, v: nat)
    requires forall f :: f in fs ==> f < 0x10_0000_0000
    ensures Lookup(Replay(InitRun(fs, dev)), v) == InitPage(fs, dev, v)
  {
    hide MemoryRun, InitRun, Replay, Visits;
    InitRunTranslates(fs, dev, v);
    MemoryRunTouches(fs, dev, v);
  }

  // ---------------------------------------------------------------- the structures

  /** The tree that init_paging builds from frame states s. */
  function InitTree(pfn: seq<Frame>, root: Frame, s: seq<State>, dev: Devices): Tree
    requires |s| == |pfn|
  {
    Tree(Execute(pfn, Layout(map[ROOT := root], s), Calls(InitRun(pfn, dev))).tables, Replay(InitRun(pfn, dev)))
  }

  /** There are free frames for all structures. */
  predicate EnoughFree(pfn: seq<Frame>, s: seq<State>, dev: Devices) {
    |s| == |pfn| && |Order(InitRun(pfn, dev))| <= |FreeList(s)| + 1
  }

  lemma {:induction false} InitTreeInOrder(pfn: seq<Frame>, root: Frame, s: seq<State>, dev: Devices)
    requires EnoughFree(pfn, s, dev)
    ensures var order, t := Order(InitRun(pfn, dev)), InitTree(pfn, root, s, dev);
      order[0] == ROOT && ROOT in t.tables && t.tables[ROOT] == root
      && (forall n :: n in t.tables <==> n in order)
      && (forall r :: 1 <= r < |order| ==> t.tables[order[r]] == pfn[FreeList(s)[r - 1]])
  {
    hide Execute, FreeList, InitRun, Order, Calls, Replay;
    RunInOrder(pfn, root, s, InitRun(pfn, dev));
  }

  // ---------------------------------------------------------------- the self test

  /** Entry 307 of structure n ends up empty, or refers to a structure in a free frame that is 7 modulo 16. In a page
      table only the first is possible, since the page number and thus the frame is 3 modulo 16. */
  ghost predicate SparesChild(pfn: seq<Frame>, s: seq<State>, dev: Devices, n: Node)
    requires EnoughFree(pfn, s, dev)
  {
    var order, x := Order(InitRun(pfn, dev)), 512 * n.prefix + 307;
    if n.level <= 1 then InitPage(pfn, dev, x) == None
    else forall r :: 1 <= r < |order| && order[r] == Node(n.level - 1, x) ==> pfn[FreeList(s)[r - 1]] % 16 == 7
  }

  /** Whether the self test of init_paging spares the tables, read off what it starts from: the structures that come to
      lie in frame 0 are the PML4, if that is its frame, and the q-th one needed, if 0 is the q-th free frame. */
  ghost predicate SelfTestSpares(pfn: seq<Frame>, root: Frame, s: seq<State>, dev: Devices)
    requires EnoughFree(pfn, s, dev)
  {
    var order := Order(InitRun(pfn, dev));
    (root == 0 ==> SparesChild(pfn, s, dev, ROOT))
    && forall q :: 1 <= q < |order| && pfn[FreeList(s)[q - 1]] == 0 ==> SparesChild(pfn, s, dev, order[q])
  }

  /** The structures in frame 0, by their place in the order of need. */
  lemma {:induction false} SafeInOrder(pfn: seq<Frame>, root: Frame, s: seq<State>, dev: Devices)
    requires EnoughFree(pfn, s, dev)
    ensures var order, t := Order(InitRun(pfn, dev)), InitTree(pfn, root, s, dev);
      TestByteSafe(t)
      <==> (root == 0 ==> Spared(t, ROOT))
           && forall q :: 1 <= q < |order| && pfn[FreeList(s)[q - 1]] == 0 ==> Spared(t, order[q])
  {
    hide FreeList, InitRun, Order, InitTree, Spared;
    InitTreeInOrder(pfn, root, s, dev);
    var order, t := Order(InitRun(pfn, dev)), InitTree(pfn, root, s, dev);
    forall n | n in t.tables && t.tables[n] == 0
      ensures if n == ROOT then root == 0 else exists q :: 1 <= q < |order| && order[q] == n
    {
      var r :| 0 <= r < |order| && order[r] == n;
    }
    forall q | 1 <= q < |order|
      ensures order[q] in t.tables
    {
    }
  }

  lemma SparedExact(pfn: seq<Frame>, root: Frame, s: seq<State>, dev: Devices, n: Node)
    requires EnoughFree(pfn, s, dev) && n.level <= 4
    requires n.level <= 1 ==> forall f :: f in pfn ==> f < 0x10_0000_0000
    ensures Spared(InitTree(pfn, root, s, dev), n) <==> SparesChild(pfn, s, dev, n)
  {
    hide FreeList, InitRun, Order, InitTree, InitPage;
    var x := 512 * n.prefix + 307;
    if n.level <= 1 {
      InitTreePages(pfn, root, s, dev);
      InitRunMap(pfn, dev, x);
      PageThrough307(pfn, dev, n.prefix);
    } else {
      var order, c := Order(InitRun(pfn, dev)), Node(n.level - 1, x);
      InitTreeInOrder(pfn, root, s, dev);
      assert Child(InitTree(pfn, root, s, dev), n, 307) == Lookup(InitTree(pfn, root, s, dev).tables, c);
      if c in order {
        var r :| 0 <= r < |order| && order[r] == c;
        assert InitTree(pfn, root, s, dev).tables[c] == pfn[FreeList(s)[r - 1]];
      }
    }
  }

  lemma InitTreePages(pfn: seq<Frame>, root: Frame, s: seq<State>, dev: Devices)
    requires EnoughFree(pfn, s, dev)
    ensures InitTree(pfn, root, s, dev).pages == Replay(InitRun(pfn, dev))
  {
  }

  lemma PageThrough307(pfn: seq<Frame>, dev: Devices, p: nat)
    ensures var f := InitPage(pfn, dev, 512 * p + 307); f.None? || f.value % 16 == 3
  {
    hide Visits;
    var q, r := Euclid(512 * p + 307, 0x1_0000_0000);
    var e := 32 * p + 19 - q * 0x1000_0000;
    assert r == e * 16 + 3;
    DivMod(e, 16, 3);
  }

  /** The self test spares the page tables exactly under that condition on what init_paging starts from. */
  lemma SelfTestExact(pfn: seq<Frame>, root: Frame, s: seq<State>, dev: Devices)
    requires EnoughFree(pfn, s, dev) && forall f :: f in pfn ==> f < 0x10_0000_0000
    ensures TestByteSafe(InitTree(pfn, root, s, dev)) <==> SelfTestSpares(pfn, root, s, dev)
  {
    hide FreeList, InitRun, Order, InitTree, Spared, SparesChild, TestByteSafe;
    SafeInOrder(pfn, root, s, dev);
    var order := Order(InitRun(pfn, dev));
    OrderLevels(InitRun(pfn, dev));
    SparedExact(pfn, root, s, dev, ROOT);
    forall q | 1 <= q < |order|
      ensures Spared(InitTree(pfn, root, s, dev), order[q]) <==> SparesChild(pfn, s, dev, order[q])
    {
      assert order[q] in order;
      SparedExact(pfn, root, s, dev, order[q]);
    }
  }

  /** If neither the PML4 nor a free frame is frame 0, then the test byte hits no structure. */
  lemma ZeroNotFree(pfn: seq<Frame>, root: Frame, s: seq<State>, dev: Devices)
    requires EnoughFree(pfn, s, dev) && root != 0
    requires forall j :: 0 <= j < |s| && s[j] == FREE ==> pfn[j] != 0
    ensures TestByteSafe(InitTree(pfn, root, s, dev))
  {
    hide FreeList, InitRun, Order, InitTree, Spared, TestByteSafe;
    SafeInOrder(pfn, root, s, dev);
  }

  lemma {:induction false} OrderStarts(run: seq<Mapping>)
    requires run != []
    ensures |Order(run)| >= 2 && Order(run)[0] == ROOT && Order(run)[1] == NodeOf(3, run[0].page)
  {
    hide NodeOf, Needs;
    var last := |run| - 1;
    OrderGrows(run);
    if last == 0 {
      assert run[..0] == [];
      ParentOnPath(3, run[0].page);
      NeedsNew([ROOT], NodeOf(3, run[0].page));
    } else {
      OrderStarts(run[..last]);
    }
  }

  /** If frame 0 is the lowest free one, then it becomes the PDPT of the first managed frame, and the self test spares
      the tables exactly if nothing is mapped in the gigabyte of the PDPT's entry 307, or the page directory for it
      happens to be in a frame that is 7 modulo 16. */
  lemma {:induction false} ZeroFirstFree(pfn: seq<Frame>, root: Frame, s: seq<State>, dev: Devices)
    requires EnoughFree(pfn, s, dev) && root != 0 && pfn != [] && FreeList(s) != [] && pfn[FreeList(s)[0]] == 0
    requires forall i, j :: 0 <= i < j < |pfn| ==> pfn[i] != pfn[j]
    requires pfn[0] < 0x10_0000_0000
    ensures var p, t := Node(3, Prefix(3, pfn[0])), InitTree(pfn, root, s, dev);
      Lookup(t.tables, p) == Some(0) && (TestByteSafe(t) <==> SparesChild(pfn, s, dev, p))
  {
    hide FreeList, InitRun, Order, InitTree, Prefix, Spared, SparesChild, TestByteSafe;
    var order := Order(InitRun(pfn, dev));
    FirstNeeded(pfn, dev);
    InitTreeInOrder(pfn, root, s, dev);
    SafeInOrder(pfn, root, s, dev);
    SparedExact(pfn, root, s, dev, order[1]);
  }

  lemma FirstNeeded(pfn: seq<Frame>, dev: Devices)
    requires pfn != [] && pfn[0] < 0x10_0000_0000
    ensures var order := Order(InitRun(pfn, dev)); |order| >= 2 && order[1] == Node(3, Prefix(3, pfn[0]))
  {
    hide FrameRun, DeviceRun, IdentityMapping, AddrOfFrame, Order, Prefix;
    FrameRunAt(pfn);
    FrameMappingPage(pfn[0]);
    OrderStarts(InitRun(pfn, dev));
    assert InitRun(pfn, dev)[0] == FrameRun(pfn)[0];
  }

  lemma {:induction false} CountOfPrefix(s: seq<State>, k: nat, x: State)
    requires k <= |s|
    ensures Count(s[..k], x) <= Count(s, x)
    decreases |s|
  {
    if k == |s| {
      assert s[..k] == s;
    } else {
      CountOfPrefix(s[..|s| - 1], k, x);
      assert s[..|s| - 1][..k] == s[..k];
    }
  }

  /** As many free frames as the run costs are enough. */
  lemma CostIsEnough(pfn: seq<Frame>, s: seq<State>, low: nat, dev: Devices)
    requires |s| == |pfn| && low <= |s| && Cost({ROOT}, InitRun(pfn, dev)) <= Count(s[..low], FREE)
    ensures EnoughFree(pfn, s, dev)
  {
    hide Count, FreeList, InitRun, Order, Nodes;
    var run := InitRun(pfn, dev);
    CountOfPrefix(s, low, FREE);
    FreeListCount(s);
    OrderIsNodes(run);
    RootNeeded(run);
    assert Nodes(run) == (Nodes(run) - {ROOT}) + {ROOT};
  }
}

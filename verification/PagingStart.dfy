/** The state in which init_paging finds memory: an initialised allocator and an empty PML4. */
module PagingStart {
  import opened Words
  import opened Mmu
  import opened Counting
  import opened FrameStates
  import opened FrameArray
  import opened MemoryMap
  import opened FrameLayout
  import opened PageTree
  import opened PagingState

  /** The PML4 lies in a region that init reserves, as the kernel image does. */
  predicate RootReserved(mm: seq<Descriptor>, root: Frame) {
    exists k :: 0 <= k < |mm| && !Usable(mm[k].kind)
      && mm[k].base / PAGE_SZ <= root < mm[k].base / PAGE_SZ + mm[k].pages
  }

  /** Among the lowest `low` indices, the free frames can be read back from an entry. */
  predicate LowFramesFit(mm: seq<Descriptor>, s: seq<State>, low: nat, limit: nat) {
    low <= |s| == TotalPages(mm) && forall i :: 0 <= i < low && s[i] == FREE ==> FrameList(mm)[i] < limit
  }

  function EmptyTree(root: Frame): Tree { Tree(map[ROOT := root], map[]) }

  ghost predicate AddrsAre(pfn: seq<Frame>, addrs: seq<Word>) {
    |addrs| == |pfn| && forall i :: 0 <= i < |pfn| ==> addrs[i] == pfn[i] * PAGE_SZ
  }

  lemma AddrsAreAt(pfn: seq<Frame>, addrs: seq<Word>, i: nat)
    requires AddrsAre(pfn, addrs) && i < |pfn|
    ensures |addrs| == |pfn| && addrs[i] / PAGE_SZ == pfn[i]
  {
  }

  ghost function FramesOf(mm: seq<Descriptor>): (pfn: seq<Frame>)
    requires WellFormedMap(mm)
    ensures pfn == FrameList(mm)
  {
    forall k | 0 <= k < TotalPages(mm)
      ensures FrameList(mm)[k] < 0x100_0000_0000
    {
      FrameInRange(mm, k);
    }
    seq(TotalPages(mm), k requires 0 <= k < TotalPages(mm) => FrameList(mm)[k])
  }

  ghost function StartConfig(mm: seq<Descriptor>, d: nat, root: Frame, limit: nat, low: nat): Config
    requires WellFormedMap(mm) && d < |mm|
  {
    Config(root, FramesOf(mm), ArrayFrames(mm[d].base / PAGE_SZ, TotalPages(mm)), limit, low)
  }

  /** The index of the PML4's frame, whose state is RESERVED and which the array does not reach. */
  lemma RootPlace(mm: seq<Descriptor>, d: nat, stack: Word, s: seq<State>, root: Frame) returns (k: nat)
    requires WellFormedMap(mm) && HostsArray(mm, d) && InitialStates(mm, d, stack, s) && RootReserved(mm, root)
    ensures k < |s| && FrameList(mm)[k] == root && s[k] == RESERVED
    ensures root !in ArrayFrames(mm[d].base / PAGE_SZ, TotalPages(mm))
  {
    hide FrameList, KindList, TotalPages, Start, WellFormedMap;
    var i :| 0 <= i < |mm| && !Usable(mm[i].kind) && mm[i].base / PAGE_SZ <= root < mm[i].base / PAGE_SZ + mm[i].pages;
    var n := root - mm[i].base / PAGE_SZ;
    FrameListAt(mm, i, n);
    k := Start(mm, i) + n;
    ArrayFits(mm, d);
    if root in ArrayFrames(mm[d].base / PAGE_SZ, TotalPages(mm)) {
      PagesDistinct(mm, i, n, d, root - mm[d].base / PAGE_SZ);
    }
  }

  lemma {:induction false} ArrayManaged(mm: seq<Descriptor>, d: nat, f: nat)
    requires WellFormedMap(mm) && HostsArray(mm, d) && f in ArrayFrames(mm[d].base / PAGE_SZ, TotalPages(mm))
    ensures f in FrameList(mm)
  {
    hide FrameList, KindList, Start, TotalPages, WellFormedMap;
    ArrayFits(mm, d);
    FrameListAt(mm, d, f - mm[d].base / PAGE_SZ);
  }

  lemma {:induction false} StartConfigGood(
    mm: seq<Descriptor>, d: nat, stack: Word, s: seq<State>, root: Frame, limit: nat, low: nat)
    requires WellFormedMap(mm) && HostsArray(mm, d) && InitialStates(mm, d, stack, s) && RootReserved(mm, root)
    requires limit <= 0x1_0000_0000 && low <= TotalPages(mm)
    ensures GoodConfig(StartConfig(mm, d, root, limit, low))
  {
    hide FrameList, Start, TotalPages, WellFormedMap, InitialState, RootReserved;
    var c := StartConfig(mm, d, root, limit, low);
    var k := RootPlace(mm, d, stack, s, root);
    MapFitsMemory(mm);
    forall f | f in ArrayFrames(mm[d].base / PAGE_SZ, TotalPages(mm))
      ensures f in FrameList(mm)
    {
      ArrayManaged(mm, d, f);
    }
    assert c.pfn[k] == root;
  }

  lemma {:induction false} StartOwned(
    mm: seq<Descriptor>, d: nat, stack: Word, s: seq<State>, root: Frame, limit: nat, low: nat)
    requires WellFormedMap(mm) && HostsArray(mm, d) && InitialStates(mm, d, stack, s) && RootReserved(mm, root)
    requires 32 <= TotalPages(mm) && LowFramesFit(mm, s, low, limit)
    ensures Owned(StartConfig(mm, d, root, limit, low), EmptyTree(root), s)
  {
    hide FrameList, KindList, Start, WellFormedMap, InitialState, RootReserved;
    var k := RootPlace(mm, d, stack, s, root);
    MapFitsMemory(mm);
    forall i | 0 <= i < |s| && s[i] == FREE
      ensures FrameList(mm)[i] != root && FrameList(mm)[i] !in ArrayFrames(mm[d].base / PAGE_SZ, TotalPages(mm))
    {
      if FrameList(mm)[i] in ArrayFrames(mm[d].base / PAGE_SZ, TotalPages(mm)) {
        ArrayNeverFree(mm, d, stack, s, i);
      }
    }
  }

  lemma EmptyTreeEncoded(m: Mem, root: Frame)
    requires Zeroed(m, root)
    ensures WellFormed(EmptyTree(root), root) && Encodes(m, EmptyTree(root)) && AllWritable(m, EmptyTree(root))
  {
    forall i: Index
      ensures Says(EntryAt(m, root, i), 4, Child(EmptyTree(root), ROOT, i)) && !Present(EntryAt(m, root, i))
    {
      assert EntryAt(m, root, i) == 0;
    }
  }

  lemma SoundAtStart(c: Config, m: Mem, s: seq<State>)
    requires GoodConfig(c) && Owned(c, EmptyTree(c.root), s) && Zeroed(m, c.root)
    ensures Sound(c, m, EmptyTree(c.root), None, s)
  {
    EmptyTreeEncoded(m, c.root);
  }

  lemma {:induction false} StartSound(
    mm: seq<Descriptor>, d: nat, stack: Word, s: seq<State>, m: Mem, root: Frame, limit: nat, low: nat)
    requires WellFormedMap(mm) && HostsArray(mm, d) && InitialStates(mm, d, stack, s) && RootReserved(mm, root)
    requires 32 <= TotalPages(mm) && limit <= 0x1_0000_0000 && LowFramesFit(mm, s, low, limit) && Zeroed(m, root)
    ensures Sound(StartConfig(mm, d, root, limit, low), m, EmptyTree(root), None, s)
  {
    hide InitialStates, RootReserved, Zeroed, GoodConfig, Owned, Sound, WellFormedMap, EmptyTree;
    StartConfigGood(mm, d, stack, s, root, limit, low);
    StartOwned(mm, d, stack, s, root, limit, low);
    SoundAtStart(StartConfig(mm, d, root, limit, low), m, s);
  }
}

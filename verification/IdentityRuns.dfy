/** Runs of identity mappings: what they map, and how many structures they cost. */
module IdentityRuns {
  import opened Arithmetic
  import opened Words
  import opened Mmu
  import opened Counting
  import opened PageTree
  import opened MappingLog

  /** The frame part of a physical address, cut to the 32-bit address member. */
  function FrameOf(paddr: Word): Frame { paddr / PAGE_SZ % 0x1_0000_0000 }

  /** map_vaddr_to_paddr(addr, addr) */
  function IdentityMapping(addr: Word): Mapping { Mapping(PageOf(addr), FrameOf(addr)) }

  /** The address i pages after addr, with the wrap-around of uint64_t. */
  function PageAfter(addr: Word, i: nat): Word { (addr + i * PAGE_SZ) % 0x1_0000_0000_0000_0000 }

  /** k consecutive pages from addr on. */
  function PageRun(addr: Word, k: nat): (run: seq<Mapping>)
    ensures |run| == k
  {
    if k == 0 then [] else PageRun(addr, k - 1) + [IdentityMapping(PageAfter(addr, k - 1))]
  }

  lemma {:induction false} PageRunAt(addr: Word, k: nat)
    ensures forall i :: 0 <= i < k ==> PageRun(addr, k)[i] == IdentityMapping(PageAfter(addr, i))
  {
    hide IdentityMapping, PageAfter;
    if k > 0 {
      PageRunAt(addr, k - 1);
    }
  }

  /** The iterations of _identity_paging for n bytes. */
  function RunLength(n: Word): nat { n / (PAGE_SZ + 1) + 1 }

  /** The least number k of iterations with n < 4097*k. */
  lemma RunLengthExact(n: Word)
    ensures n < 4097 * RunLength(n) <= n + 4097
  {
  }

  lemma IterationsExact(n: Word, i: nat)
    ensures i < RunLength(n) <==> 4097 * i <= n
  {
    RunLengthExact(n);
  }

  /** _identity_paging of n bytes from addr on visits page v. */
  ghost predicate Visits(addr: Word, n: Word, v: nat) {
    exists i :: 0 <= i < RunLength(n) && PageOf(PageAfter(addr, i)) == v
  }

  /** Every frame of fs at its own address. */
  function FrameRun(fs: seq<Frame>): (run: seq<Mapping>)
    ensures |run| == |fs|
  {
    if fs == [] then [] else FrameRun(fs[..|fs| - 1]) + [IdentityMapping(AddrOfFrame(fs[|fs| - 1]))]
  }

  lemma {:induction false} FrameRunAt(fs: seq<Frame>)
    ensures forall i :: 0 <= i < |fs| ==> FrameRun(fs)[i] == IdentityMapping(AddrOfFrame(fs[i]))
  {
    hide IdentityMapping, AddrOfFrame;
    if fs != [] {
      FrameRunAt(fs[..|fs| - 1]);
    }
  }

  /** Mapping number i of a run of consecutive pages, of a 64-bit address to itself. */
  lemma {:induction false} PageRunExact(addr: Word, k: nat)
    ensures forall i :: 0 <= i < k ==>
      var a := (addr + 4096 * i) % 0x1_0000_0000_0000_0000;
      PageRun(addr, k)[i] == Mapping(a / 4096 % 0x10_0000_0000, a / 4096 % 0x1_0000_0000)
  {
    hide PageRun;
    PageRunAt(addr, k);
  }

  /** Number i of the first loop is managed frame i, to itself. */
  lemma {:induction false} FrameRunExact(fs: seq<Frame>)
    ensures forall i :: 0 <= i < |fs| ==>
      FrameRun(fs)[i] == Mapping(fs[i] % 0x10_0000_0000, fs[i] % 0x1_0000_0000)
  {
    hide FrameRun;
    FrameRunAt(fs);
  }

  function AddrOfFrame(f: Frame): Word { f * PAGE_SZ }

  /** An address below 2^44 maps its page to that page's own frame, any other loses address bits. */
  lemma IdentityExact(addr: Word)
    requires addr < 0x1_0000_0000_0000
    ensures IdentityMapping(addr).page == addr / PAGE_SZ
    ensures IdentityMapping(addr).frame == IdentityMapping(addr).page <==> addr < 0x1000_0000_0000
  {
  }

  // ---------------------------------------------------------------- cost in structures

  /** How many structures a run adds to those in `have`. */
  function Cost(have: set<Node>, run: seq<Mapping>): nat {
    |Nodes(run) - have|
  }

  lemma {:induction false} RootNeeded(run: seq<Mapping>)
    ensures ROOT in Nodes(run)
  {
    if run != [] {
      RootNeeded(run[..|run| - 1]);
    }
  }

  lemma {:induction false} NodesAppend(a: seq<Mapping>, b: seq<Mapping>)
    ensures Nodes(a + b) == Nodes(a) + Nodes(b)
  {
    if b == [] {
      assert a + b == a;
      RootNeeded(a);
    } else {
      var last := |b| - 1;
      assert (a + b)[..|a| + last] == a + b[..last];
      NodesAppend(a, b[..last]);
    }
  }

  lemma EmptyRun(have: set<Node>)
    requires ROOT in have
    ensures Cost(have, []) == 0 && have + Nodes([]) == have
  {
    assert Nodes([]) - have == {};
  }

  /** Costs add up along a run. */
  lemma {:induction false} CostAppend(have: set<Node>, a: seq<Mapping>, b: seq<Mapping>)
    ensures Cost(have, a + b) == Cost(have, a) + Cost(have + Nodes(a), b)
  {
    NodesAppend(a, b);
    var x, y := Nodes(a) - have, Nodes(b) - (have + Nodes(a));
    assert Nodes(a + b) - have == x + y;
    assert x !! y;
  }

  /** The cost of one more mapping is the number of structures missing on its path. */
  lemma {:induction false} CostStep(have: set<Node>, run: seq<Mapping>, e: Mapping)
    requires ROOT in have
    ensures Cost(have, run + [e]) == Cost(have, run) + |PathNodes(e.page) - (have + Nodes(run))|
  {
    LogStep(run, e);
    var x, y := Nodes(run) - have, PathNodes(e.page) - (have + Nodes(run));
    assert Nodes(run + [e]) - have == x + y;
    assert x !! y;
  }

  /** A prefix of a run costs no more than the run. */
  lemma CostPrefix(have: set<Node>, a: seq<Mapping>, b: seq<Mapping>)
    requires a <= b
    ensures Cost(have, a) <= Cost(have, b)
  {
    assert b == a + b[|a|..];
    CostAppend(have, a, b[|a|..]);
  }

  lemma {:induction false} PageRunPrefix(addr: Word, i: nat, k: nat)
    requires i <= k
    ensures PageRun(addr, i) <= PageRun(addr, k)
  {
    hide IdentityMapping, PageAfter;
    if i < k {
      PageRunPrefix(addr, i, k - 1);
    }
  }

  lemma {:induction false} PageRunStart(addr: Word)
    ensures PageRun(addr, 0) == [] && PageAfter(addr, 0) == addr
  {
  }

  lemma PageRunStep(have: set<Node>, addr: Word, i: nat, k: nat)
    requires i < k
    ensures PageRun(addr, i + 1) == PageRun(addr, i) + [IdentityMapping(PageAfter(addr, i))]
    ensures PageAfter(addr, i + 1) == (PageAfter(addr, i) + PAGE_SZ) % 0x1_0000_0000_0000_0000
    ensures Cost(have, PageRun(addr, i + 1)) <= Cost(have, PageRun(addr, k))
  {
    hide Cost, IdentityMapping;
    WrapAdd(addr + i * PAGE_SZ, PAGE_SZ);
    PageRunPrefix(addr, i + 1, k);
    CostPrefix(have, PageRun(addr, i + 1), PageRun(addr, k));
  }

  lemma WrapAdd(x: nat, y: nat)
    ensures (x + y) % 0x1_0000_0000_0000_0000 == (x % 0x1_0000_0000_0000_0000 + y) % 0x1_0000_0000_0000_0000
  {
    var q, r := Euclid(x, 0x1_0000_0000_0000_0000);
    var p, t := Euclid(r + y, 0x1_0000_0000_0000_0000);
    DivMod(q + p, 0x1_0000_0000_0000_0000, t);
  }

  lemma {:induction false} FrameRunStep(have: set<Node>, fs: seq<Frame>, i: nat)
    requires i < |fs|
    ensures FrameRun(fs[..i + 1]) == FrameRun(fs[..i]) + [IdentityMapping(AddrOfFrame(fs[i]))]
    ensures Cost(have, FrameRun(fs[..i + 1])) <= Cost(have, FrameRun(fs))
  {
    hide Cost, IdentityMapping;
    assert fs[..i + 1][..i] == fs[..i];
    FrameRunPrefix(fs, i + 1);
    CostPrefix(have, FrameRun(fs[..i + 1]), FrameRun(fs));
  }

  lemma FrameRunStart(fs: seq<Frame>)
    ensures FrameRun(fs[..0]) == []
  {
  }

  lemma {:induction false} FrameRunPrefix(fs: seq<Frame>, i: nat)
    requires i <= |fs|
    ensures FrameRun(fs[..i]) <= FrameRun(fs)
  {
    hide IdentityMapping, AddrOfFrame;
    if i < |fs| {
      FrameRunPrefix(fs[..|fs| - 1], i);
      assert fs[..|fs| - 1][..i] == fs[..i];
    } else {
      assert fs[..i] == fs;
    }
  }

  // ---------------------------------------------------------------- the run of _identity_paging_memory

  const APIC_BASE_ADDR: Word := 0xFEE0_0000

  /** The areas outside the memory map: framebuffer and HPET registers, in bytes. */
  datatype Devices = Devices(framebuffer: Word, framebufferSize: Word, hpet: Word, hpetSize: Word)

  function DeviceRun(dev: Devices): seq<Mapping> {
    PageRun(dev.framebuffer, RunLength(dev.framebufferSize)) + PageRun(APIC_BASE_ADDR, RunLength(PAGE_SZ))
    + PageRun(dev.hpet, RunLength(dev.hpetSize))
  }

  /** The three areas one after the other. */
  lemma DeviceRunCost(have: set<Node>, dev: Devices)
    ensures var a := PageRun(dev.framebuffer, RunLength(dev.framebufferSize));
      var b := PageRun(APIC_BASE_ADDR, RunLength(PAGE_SZ));
      var c := PageRun(dev.hpet, RunLength(dev.hpetSize));
      a + b + c == DeviceRun(dev) && have + Nodes(a) + Nodes(b) + Nodes(c) == have + Nodes(DeviceRun(dev))
      && Cost(have, DeviceRun(dev)) == Cost(have, a) + Cost(have + Nodes(a), b) + Cost(have + Nodes(a) + Nodes(b), c)
  {
    hide Cost, PageRun, RunLength;
    var a, b := PageRun(dev.framebuffer, RunLength(dev.framebufferSize)), PageRun(APIC_BASE_ADDR, RunLength(PAGE_SZ));
    var c := PageRun(dev.hpet, RunLength(dev.hpetSize));
    CostAppend(have, a, b);
    CostAppend(have, a + b, c);
    NodesAppend(a, b);
    NodesAppend(a + b, c);
    assert have + Nodes(a) + Nodes(b) == have + Nodes(a + b);
  }

  /** The device runs one after the other: the framebuffer, the local APIC's page 0xFEE00, the HPET registers. */
  lemma DeviceRunExact(dev: Devices)
    ensures var run, k := DeviceRun(dev), RunLength(dev.framebufferSize);
      |run| == k + 1 + RunLength(dev.hpetSize) && run[..k] == PageRun(dev.framebuffer, k)
      && run[k] == Mapping(0xF_EE00, 0xF_EE00) && run[k + 1..] == PageRun(dev.hpet, RunLength(dev.hpetSize))
  {
    hide PageRun, IdentityMapping, PageAfter;
    PageRunAt(APIC_BASE_ADDR, 1);
    ApicMapping();
  }

  lemma ApicMapping()
    ensures IdentityMapping(PageAfter(APIC_BASE_ADDR, 0)) == Mapping(0xF_EE00, 0xF_EE00)
    ensures RunLength(PAGE_SZ) == 1
  {
  }

  function MemoryRun(fs: seq<Frame>, dev: Devices): seq<Mapping> {
    FrameRun(fs) + DeviceRun(dev)
  }

  /** Identity mapping keeps the low 32 bits of the page number. */
  lemma IdentityMappingFrame(addr: Word)
    ensures IdentityMapping(addr).frame == IdentityMapping(addr).page % 0x1_0000_0000
  {
    var x := addr / PAGE_SZ;
    var q, r := x / 0x10_0000_0000, x % 0x10_0000_0000;
    DivMod(16 * q + r / 0x1_0000_0000, 0x1_0000_0000, r % 0x1_0000_0000);
  }

  lemma RunsIdentity(fs: seq<Frame>, dev: Devices)
    ensures OwnFrames(MemoryRun(fs, dev))
  {
    hide IdentityMapping, PageRun, FrameRun, AddrOfFrame, PageAfter;
    var a, b := PageRun(dev.framebuffer, RunLength(dev.framebufferSize)), PageRun(APIC_BASE_ADDR, RunLength(PAGE_SZ));
    var c := PageRun(dev.hpet, RunLength(dev.hpetSize));
    FrameRunOwn(fs);
    PageRunOwn(dev.framebuffer, RunLength(dev.framebufferSize));
    PageRunOwn(APIC_BASE_ADDR, RunLength(PAGE_SZ));
    PageRunOwn(dev.hpet, RunLength(dev.hpetSize));
    assert MemoryRun(fs, dev) == FrameRun(fs) + a + b + c;
  }

  lemma {:induction false} PageRunOwn(addr: Word, k: nat)
    ensures OwnFrames(PageRun(addr, k))
  {
    hide IdentityMapping, PageRun;
    PageRunAt(addr, k);
    forall e | e in PageRun(addr, k)
      ensures e.frame == e.page % 0x1_0000_0000
    {
      var i :| 0 <= i < k && PageRun(addr, k)[i] == e;
      IdentityMappingFrame(PageAfter(addr, i));
    }
  }

  lemma {:induction false} FrameRunOwn(fs: seq<Frame>)
    ensures OwnFrames(FrameRun(fs))
  {
    hide IdentityMapping, FrameRun;
    FrameRunAt(fs);
    forall e | e in FrameRun(fs)
      ensures e.frame == e.page % 0x1_0000_0000
    {
      var i :| 0 <= i < |fs| && FrameRun(fs)[i] == e;
      IdentityMappingFrame(AddrOfFrame(fs[i]));
    }
  }

  lemma FrameMappingPage(f: Frame)
    requires f < 0x10_0000_0000
    ensures IdentityMapping(AddrOfFrame(f)).page == f
  {
  }

  /** The run of _identity_paging_memory maps every managed frame below 2^44 bytes to itself. */
  lemma MemoryRunMapsManaged(fs: seq<Frame>, dev: Devices, f: Frame)
    requires f in fs && f < 0x1_0000_0000
    ensures f in Replay(MemoryRun(fs, dev)) && Replay(MemoryRun(fs, dev))[f] == f
  {
    hide IdentityMapping, AddrOfFrame, FrameRun, DeviceRun, Replay, OwnFrames;
    var run := MemoryRun(fs, dev);
    var i :| 0 <= i < |fs| && fs[i] == f;
    FrameRunAt(fs);
    assert run[i] == FrameRun(fs)[i];
    FrameMappingPage(f);
    ReplayIsLast(run, f);
    RunsIdentity(fs, dev);
    ReplayOwn(run, f);
  }
}

/** How many pages _identity_paging visits for n bytes, and how many structures consecutive pages need. */
module FrameNeeds {
  import opened Arithmetic
  import opened Words
  import opened Mmu
  import opened Counting
  import opened PageTree
  import opened MappingLog
  import opened IdentityRuns
  import opened MemoryMap
  import opened SelfTest

  // ---------------------------------------------------------------- pages for n bytes

  lemma ByPage(n: nat) returns (q: nat, r: nat)
    ensures q == n / (PAGE_SZ + 1) && r == n % (PAGE_SZ + 1) && n == PAGE_SZ * q + (q + r)
  {
    q, r := n / (PAGE_SZ + 1), n % (PAGE_SZ + 1);
  }

  /** The address i bytes after addr, with the wrap-around of uint64_t. */
  function ByteAfter(addr: Word, i: nat): Word { (addr + i) % 0x1_0000_0000_0000_0000 }

  /** _identity_paging visits the page of every one of the n bytes from addr on. */
  ghost predicate Covers(addr: Word, n: Word) {
    forall i: nat :: i < n ==> Visits(addr, n, PageOf(ByteAfter(addr, i)))
  }

  lemma PageOfWrapped(x: nat)
    ensures PageOf(x % 0x1_0000_0000_0000_0000) == x / PAGE_SZ % 0x10_0000_0000
  {
    var q, r := x / 0x1_0000_0000_0000_0000, x % 0x1_0000_0000_0000_0000;
    var p := r / 0x1000;
    DivMod(q * 0x10_0000_0000_0000 + p, 0x1000, r % 0x1000);
    DivMod(q * 0x1_0000 + p / 0x10_0000_0000, 0x10_0000_0000, p % 0x10_0000_0000);
  }

  /** The page j pages after page number p of the 64-bit address space. */
  function PageFrom(p: nat, j: nat): Page { (p + j) % 0x10_0000_0000 }

  /** Pages closer together than the linear address space is large are different. */
  lemma PagesDiffer(p: nat, j: nat, k: nat)
    requires j < k < j + 0x10_0000_0000
    ensures PageFrom(p, j) != PageFrom(p, k)
  {
  }

  lemma PagesWrap(p: nat, e: nat)
    ensures PageFrom(p, e % 0x10_0000_0000) == PageFrom(p, e)
  {
  }

  lemma PageOfRun(addr: Word, j: nat)
    ensures PageOf(PageAfter(addr, j)) == PageFrom(addr / PAGE_SZ, j)
  {
    hide PageOf;
    PageOfWrapped(addr + j * PAGE_SZ);
    DivMod(addr / PAGE_SZ + j, PAGE_SZ, addr % PAGE_SZ);
  }

  lemma PageOfByte(addr: Word, i: nat)
    ensures PageOf(ByteAfter(addr, i)) == PageFrom(addr / PAGE_SZ, (addr % PAGE_SZ + i) / PAGE_SZ)
  {
    hide PageOf;
    PageOfWrapped(addr + i);
    var x := addr % PAGE_SZ + i;
    DivMod(addr / PAGE_SZ + x / PAGE_SZ, PAGE_SZ, x % PAGE_SZ);
  }

  lemma VisitsPageFrom(addr: Word, n: Word, j: nat)
    requires j < RunLength(n)
    ensures Visits(addr, n, PageFrom(addr / PAGE_SZ, j))
  {
    hide PageOf, PageAfter, PageFrom, RunLength;
    PageOfRun(addr, j);
  }

  /** Page v is visited exactly if it comes early enough after the first page of the area, going round the linear
      address space where need be. */
  lemma VisitsExact(addr: Word, n: Word, v: Page)
    ensures Visits(addr, n, v) <==> 4097 * ((v - addr / 4096) % 0x10_0000_0000) <= n
  {
    hide PageOf, PageAfter, RunLength;
    var least := (v - addr / 4096) % 0x10_0000_0000;
    IterationsExact(n, least);
    PageOfRun(addr, least);
    FirstReach(addr / 4096, v);
    forall i | 0 <= i < RunLength(n) && PageOf(PageAfter(addr, i)) == v
      ensures least <= i
    {
      PageOfRun(addr, i);
      LeastReach(addr / 4096, v, i);
    }
  }

  lemma FirstReach(p: nat, v: Page)
    ensures PageFrom(p, (v - p) % 0x10_0000_0000) == v
  {
  }

  lemma LeastReach(p: nat, v: Page, i: nat)
    requires PageFrom(p, i) == v
    ensures (v - p) % 0x10_0000_0000 <= i
  {
  }

  /** The pages visited are those of all n bytes exactly under this condition on the offset of the first byte and the
      size, or if the run goes round the whole linear address space. */
  lemma RunCoversExact(addr: Word, n: Word)
    requires 0 < n
    ensures Covers(addr, n)
      <==> addr % PAGE_SZ + n / (PAGE_SZ + 1) + n % (PAGE_SZ + 1) <= PAGE_SZ || 0x10_0000_0000 <= RunLength(n)
  {
    hide PageOf, Visits, PageFrom, ByteAfter;
    var q, r := ByPage(n);
    var p, off := addr / PAGE_SZ, addr % PAGE_SZ;
    if off + q + r <= PAGE_SZ || 0x10_0000_0000 <= q + 1 {
      forall i: nat | i < n
        ensures Visits(addr, n, PageOf(ByteAfter(addr, i)))
      {
        var e := (off + i) / PAGE_SZ;
        PageOfByte(addr, i);
        PagesWrap(p, e);
        VisitsPageFrom(addr, n, if e <= q then e else e % 0x10_0000_0000);
      }
    } else {
      MissedByte(addr, n, q, r);
    }
  }

  /** The first byte past the last page visited. */
  lemma MissedByte(addr: Word, n: Word, q: nat, r: nat)
    requires n == PAGE_SZ * q + (q + r) && RunLength(n) == q + 1 < 0x10_0000_0000 && addr % PAGE_SZ + q + r > PAGE_SZ
    ensures !Covers(addr, n)
  {
    hide PageOf, PageAfter, PageFrom, ByteAfter;
    var p, off := addr / PAGE_SZ, addr % PAGE_SZ;
    var i: nat := PAGE_SZ * (q + 1) - off;
    PageOfByte(addr, i);
    assert (off + i) / PAGE_SZ == q + 1;
    forall j | 0 <= j < RunLength(n)
      ensures PageOf(PageAfter(addr, j)) != PageFrom(p, q + 1)
    {
      PageOfRun(addr, j);
      PagesDiffer(p, j, q + 1);
    }
    assert !Visits(addr, n, PageOf(ByteAfter(addr, i)));
  }

  /** From an aligned start: whole areas are reached exactly under this condition on their size. */
  lemma AlignedCoversExact(addr: Word, n: Word)
    requires 0 < n && addr % PAGE_SZ == 0 && RunLength(n) < 0x10_0000_0000
    ensures Covers(addr, n) <==> n / (PAGE_SZ + 1) + n % (PAGE_SZ + 1) <= PAGE_SZ
  {
    hide Covers;
    RunCoversExact(addr, n);
  }

  /** Two bytes across a page boundary: the size gets its rounded-up number of pages, and yet the second byte's page is
      not among them. */
  lemma UnalignedMissed()
    ensures RunLength(2) == (2 + PAGE_SZ - 1) / PAGE_SZ && !Covers(0x1FFF, 2)
  {
    hide Covers;
    RunCoversExact(0x1FFF, 2);
  }

  /** A framebuffer of 3840 by 2160 pixels of 4 bytes fills 8100 pages, of which the last is missed. */
  lemma LargeFramebufferMissed(addr: Word)
    requires addr % PAGE_SZ == 0
    ensures 3840 * 2160 * 4 == 8100 * PAGE_SZ && RunLength(3840 * 2160 * 4) == 8099
    ensures !Covers(addr, 3840 * 2160 * 4)
  {
    hide Covers;
    AlignedCoversExact(addr, 3840 * 2160 * 4);
  }

  /** The count is the intended round-up exactly under the same condition, except that 0 bytes get one page. */
  lemma RunIsRoundUpExact(n: Word)
    requires 0 < n
    ensures RunLength(n) == (n + PAGE_SZ - 1) / PAGE_SZ <==> n / (PAGE_SZ + 1) + n % (PAGE_SZ + 1) <= PAGE_SZ
  {
    var q, r := ByPage(n);
    assert n + PAGE_SZ - 1 == PAGE_SZ * q + (q + r + PAGE_SZ - 1);
    assert (n + PAGE_SZ - 1) / PAGE_SZ == q + (q + r + PAGE_SZ - 1) / PAGE_SZ;
  }

  /** A whole number p of pages gets p pages exactly for p from 1 to 4097. */
  lemma WholePagesExact(p: nat)
    requires p * PAGE_SZ < 0x1_0000_0000_0000_0000
    ensures RunLength(p * PAGE_SZ) == p <==> 1 <= p <= PAGE_SZ + 1
  {
    var q, r := ByPage(p * PAGE_SZ);
  }

  // ---------------------------------------------------------------- structures for k pages

  lemma {:induction false} PrefixesAreQuotients(v: nat)
    ensures Prefix(1, v) == v / 0x200 && Prefix(2, v) == v / 0x4_0000 && Prefix(3, v) == v / 0x800_0000
  {
    hide Prefix;
    PrefixStep(0, v);
    PrefixStep(1, v);
    PrefixStep(2, v);
    Nested(v, 0x200, 0x200);
    Nested(v, 0x4_0000, 0x200);
  }

  lemma PageOfNext(p: nat, off: nat, i: nat, addr: Word)
    requires addr == p * PAGE_SZ + off && off < PAGE_SZ && p + i < 0x10_0000_0000
    ensures PageOf(PageAfter(addr, i)) == p + i
  {
    assert addr + i * PAGE_SZ == (p + i) * PAGE_SZ + off < 0x1_0000_0000_0000;
    DivMod(p + i, PAGE_SZ, off);
  }

  lemma {:induction false} ConsecutivePages(addr: Word, k: nat, i: nat)
    requires addr / PAGE_SZ + k <= 0x10_0000_0000 && i < k
    ensures PageRun(addr, k)[i].page == addr / PAGE_SZ + i
  {
    hide PageAfter, PageRun, PageOf, FrameOf;
    PageRunAt(addr, k);
    assert addr == addr / PAGE_SZ * PAGE_SZ + addr % PAGE_SZ;
    PageOfNext(addr / PAGE_SZ, addr % PAGE_SZ, i, addr);
  }

  predicate Span(level: nat, span: nat) {
    (level == 1 && span == 0x200) || (level == 2 && span == 0x4_0000) || (level == 3 && span == 0x800_0000)
  }

  lemma QuotientInterval(d: nat, v: nat, k: nat, x: nat)
    requires 0 < d && 1 <= k && v <= x < v + k
    ensures v / d <= x / d <= (v + k - 1) / d && (v + k - 1) / d - v / d <= (k + d - 2) / d
  {
    QuotientGrows(d, v, x);
    QuotientGrows(d, x, v + k - 1);
    QuotientDifference(d, v, k);
  }

  lemma QuotientGrows(d: nat, x: nat, y: nat)
    requires 0 < d && x <= y
    ensures x / d <= y / d
  {
    var q, r := Euclid(x, d);
    QuotientAtLeast(q, d, y);
  }

  lemma QuotientDifference(d: nat, v: nat, k: nat)
    requires 0 < d && 1 <= k
    ensures (v + k - 1) / d - v / d <= (k + d - 2) / d
  {
    var a, r := Euclid(v, d);
    var c, t := Euclid(v + k - 1, d);
    assert (c - a) * d == c * d - a * d;
    QuotientAtLeast(c - a, d, k + d - 2);
  }

  lemma {:induction false} PrefixInterval(level: nat, span: nat, v: nat, k: nat, x: nat)
    requires Span(level, span) && 1 <= k && v <= x < v + k
    ensures v / span <= Prefix(level, x) < (v + k - 1) / span + 1
    ensures (v + k - 1) / span - v / span <= (k + span - 2) / span
  {
    hide Prefix;
    PrefixesAreQuotients(x);
    QuotientInterval(span, v, k, x);
  }

  /** The distinct prefixes of k consecutive pages form an interval of bounded length. */
  lemma {:induction false} ConsecutivePrefixes(addr: Word, k: nat, level: nat, span: nat)
    requires 1 <= k && addr / PAGE_SZ + k <= 0x10_0000_0000 && Span(level, span)
    ensures |Prefixes(PageRun(addr, k), level)| <= (k + span - 2) / span + 1
  {
    hide Prefix, PageRun, IdentityMapping;
    var v := addr / PAGE_SZ;
    PrefixInterval(level, span, v, k, v);
    var range := Range(v / span, (v + k - 1) / span + 1);
    forall p | p in Prefixes(PageRun(addr, k), level)
      ensures p in range
    {
      var e :| e in PageRun(addr, k) && p == Prefix(level, e.page);
      var i :| 0 <= i < k && PageRun(addr, k)[i] == e;
      ConsecutivePages(addr, k, i);
      PrefixInterval(level, span, v, k, v + i);
    }
    SubsetSize(Prefixes(PageRun(addr, k), level), range);
  }

  /** k consecutive pages cost at most this many page tables, page directories and PDPTs. */
  lemma {:induction false} ConsecutiveCost(have: set<Node>, addr: Word, k: nat)
    requires ROOT in have && 1 <= k && addr / PAGE_SZ + k <= 0x10_0000_0000
    ensures Cost(have, PageRun(addr, k))
      <= ((k + 510) / 0x200 + 1) + ((k + 0x3_FFFE) / 0x4_0000 + 1) + ((k + 0x7FF_FFFE) / 0x800_0000 + 1)
  {
    hide Prefixes, Nodes, PageRun, LevelNodes;
    var run := PageRun(addr, k);
    ConsecutivePrefixes(addr, k, 1, 0x200);
    ConsecutivePrefixes(addr, k, 2, 0x4_0000);
    ConsecutivePrefixes(addr, k, 3, 0x800_0000);
    NodesSize(run);
    RootNeeded(run);
    SubsetSize(Nodes(run) - have, Nodes(run) - {ROOT});
  }

  // ---------------------------------------------------------------- structures for the whole boot run

  /** The bound on the structures for k consecutive pages. */
  function Bound(k: nat): nat {
    ((k + 510) / 0x200 + 1) + ((k + 0x3_FFFE) / 0x4_0000 + 1) + ((k + 0x7FF_FFFE) / 0x800_0000 + 1)
  }

  /** The same for every region of a memory map. */
  function MapBound(mm: seq<Descriptor>): nat {
    if mm == [] then 0 else MapBound(mm[..|mm| - 1]) + Bound(mm[|mm| - 1].pages)
  }

  /** No area of addresses runs past the end of the 48-bit linear address space. */
  predicate InLinearSpace(addr: Word, k: nat) { addr / PAGE_SZ + k <= 0x10_0000_0000 }

  lemma PageOfRegion(f: Frame, base: Word, n: nat)
    requires base % PAGE_SZ == 0 && f == base / PAGE_SZ + n && f < 0x10_0000_0000
    ensures AddrOfFrame(f) == PageAfter(base, n)
  {
    assert base + n * PAGE_SZ == f * PAGE_SZ;
  }

  /** A region of the map is visited like a run of consecutive pages. */
  lemma {:induction false} RegionIsPageRun(fs: seq<Frame>, base: Word, k: nat)
    requires |fs| == k && base % PAGE_SZ == 0 && InLinearSpace(base, k)
    requires forall n :: 0 <= n < k ==> fs[n] == base / PAGE_SZ + n
    ensures FrameRun(fs) == PageRun(base, k)
  {
    hide FrameRun, PageRun, PageAfter, AddrOfFrame, IdentityMapping;
    FrameRunAt(fs);
    PageRunAt(base, k);
    forall n | 0 <= n < k
      ensures FrameRun(fs)[n] == PageRun(base, k)[n]
    {
      PageOfRegion(fs[n], base, n);
    }
  }

  lemma {:induction false} FrameRunAppend(a: seq<Frame>, b: seq<Frame>)
    ensures FrameRun(a + b) == FrameRun(a) + FrameRun(b)
  {
    hide FrameRun, AddrOfFrame, IdentityMapping;
    FrameRunAt(a + b);
    FrameRunAt(a);
    FrameRunAt(b);
  }

  /** The last region of a map is visited after the others. */
  lemma SplitMap(mm: seq<Descriptor>, fs: seq<Frame>) returns (a: seq<Frame>)
    requires mm != [] && fs == FrameList(mm)
    requires Aligned(mm[|mm| - 1]) && InLinearSpace(mm[|mm| - 1].base, mm[|mm| - 1].pages)
    ensures a == FrameList(mm[..|mm| - 1])
    ensures FrameRun(fs) == FrameRun(a) + PageRun(mm[|mm| - 1].base, mm[|mm| - 1].pages)
  {
    hide FrameList, KindList, TotalPages, FrameRun, PageRun, AddrOfFrame, IdentityMapping;
    var d := mm[|mm| - 1];
    var k := TotalPages(mm[..|mm| - 1]);
    LastRegion(mm);
    var b := fs[k..];
    a := fs[..k];
    assert fs == a + b;
    FrameRunAppend(a, b);
    RegionIsPageRun(b, d.base, d.pages);
  }

  /** Identity mapping a whole memory map costs at most the bounds of its regions together. */
  lemma {:induction false} MapCost(have: set<Node>, mm: seq<Descriptor>, fs: seq<Frame>)
    requires ROOT in have && fs == FrameList(mm)
    requires forall i :: 0 <= i < |mm| ==> Aligned(mm[i]) && InLinearSpace(mm[i].base, mm[i].pages)
    ensures Cost(have, FrameRun(fs)) <= MapBound(mm)
    decreases |mm|
  {
    hide Cost, PageRun, Nodes, Bound;
    if mm == [] {
      EmptyRun(have);
    } else {
      var d := mm[|mm| - 1];
      var a := SplitMap(mm, fs);
      MapCost(have, mm[..|mm| - 1], a);
      CostAppend(have, FrameRun(a), PageRun(d.base, d.pages));
      RunBound(have + Nodes(FrameRun(a)), d.base, d.pages);
    }
  }

  /** The run of init_paging: the map, framebuffer, APIC and HPET, and one page for the test. */
  lemma {:induction false} InitRunBound(mm: seq<Descriptor>, fs: seq<Frame>, dev: Devices)
    requires fs == FrameList(mm)
    requires forall i :: 0 <= i < |mm| ==> Aligned(mm[i]) && InLinearSpace(mm[i].base, mm[i].pages)
    requires InLinearSpace(dev.framebuffer, RunLength(dev.framebufferSize))
      && InLinearSpace(dev.hpet, RunLength(dev.hpetSize))
    ensures Cost({ROOT}, InitRun(fs, dev))
      <= MapBound(mm) + Bound(RunLength(dev.framebufferSize)) + Bound(1) + Bound(RunLength(dev.hpetSize)) + 3
  {
    hide Cost, MapBound, FrameRun, PageRun, Nodes, Bound, FrameList, PathNodes;
    var a, b := PageRun(dev.framebuffer, RunLength(dev.framebufferSize)), PageRun(APIC_BASE_ADDR, RunLength(PAGE_SZ));
    var c := PageRun(dev.hpet, RunLength(dev.hpetSize));
    var m := Nodes(FrameRun(fs));
    var have := {ROOT};
    MapCost(have, mm, fs);
    CostAppend(have, FrameRun(fs), DeviceRun(dev));
    DeviceRunCost(have + m, dev);
    RunBound(have + m, dev.framebuffer, RunLength(dev.framebufferSize));
    RunBound(have + m + Nodes(a), APIC_BASE_ADDR, RunLength(PAGE_SZ));
    RunBound(have + m + Nodes(a) + Nodes(b), dev.hpet, RunLength(dev.hpetSize));
    InitRunCost(have, fs, dev);
    MissingNodes(have + Nodes(MemoryRun(fs, dev)), TEST_PAGE);
  }

  lemma {:induction false} RunBound(have: set<Node>, addr: Word, k: nat)
    requires ROOT in have && 1 <= k && InLinearSpace(addr, k)
    ensures Cost(have, PageRun(addr, k)) <= Bound(k)
  {
    ConsecutiveCost(have, addr, k);
  }
}

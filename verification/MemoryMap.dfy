/** The UEFI memory map and the page frames it describes. */
module MemoryMap {
  import opened Words
  import opened Counting

  const EFI_BOOT_SERVICES_CODE := 3
  const EFI_BOOT_SERVICES_DATA := 4
  const EFI_CONVENTIONAL_MEMORY := 7

  /** An EfiMemoryDescriptor: region type, physical address of the first byte, length in pages. */
  datatype Descriptor = Descriptor(kind: nat, base: nat, pages: nat)

  /** Types of region whose frames the kernel may hand out. */
  predicate Usable(kind: nat) {
    kind == EFI_CONVENTIONAL_MEMORY || kind == EFI_BOOT_SERVICES_CODE || kind == EFI_BOOT_SERVICES_DATA
  }

  /** In the numbers of section 7.2 of the UEFI Specification: boot services code and data, conventional memory. */
  lemma UsableKinds(kind: nat)
    ensures Usable(kind) <==> kind == 3 || kind == 4 || kind == 7
  {
  }

  predicate Aligned(d: Descriptor) {
    d.base % 0x1000 == 0 && 0 < d.pages && d.base / 0x1000 + d.pages <= 0x100_0000_0000
  }

  predicate Apart(c: Descriptor, d: Descriptor) {
    c.base / 0x1000 + c.pages <= d.base / 0x1000 || d.base / 0x1000 + d.pages <= c.base / 0x1000
  }

  /** What section 7.2 of the UEFI Specification promises of the map: page-aligned, non-empty, disjoint regions. */
  predicate WellFormedMap(mm: seq<Descriptor>) {
    |mm| < 0x1_0000_0000
    && (forall i :: 0 <= i < |mm| ==> Aligned(mm[i]))
    && (forall i, j :: 0 <= i < j < |mm| ==> Apart(mm[i], mm[j]))
  }

  function TotalPages(mm: seq<Descriptor>): (n: nat)
  {
    if mm == [] then 0 else TotalPages(mm[..|mm| - 1]) + mm[|mm| - 1].pages
  }

  /** The frames of the map in the order of its descriptors. */
  function FrameList(mm: seq<Descriptor>): (fs: seq<nat>)
    ensures |fs| == TotalPages(mm)
  {
    if mm == [] then []
    else
      var d := mm[|mm| - 1];
      FrameList(mm[..|mm| - 1]) + seq(d.pages, n requires 0 <= n => d.base / 0x1000 + n)
  }

  /** The region type of each frame of FrameList. */
  function KindList(mm: seq<Descriptor>): (ks: seq<nat>)
    ensures |ks| == TotalPages(mm)
  {
    if mm == [] then []
    else
      var d := mm[|mm| - 1];
      KindList(mm[..|mm| - 1]) + seq(d.pages, n requires 0 <= n => d.kind)
  }

  /** The index in FrameList of the first frame of descriptor i. */
  function Start(mm: seq<Descriptor>, i: nat): nat
    requires i <= |mm|
  {
    TotalPages(mm[..i])
  }

  lemma StartStep(mm: seq<Descriptor>, i: nat)
    requires i < |mm|
    ensures Start(mm, i + 1) == Start(mm, i) + mm[i].pages
  {
    assert mm[..i + 1][..i] == mm[..i];
  }

  lemma {:induction false} StartEnds(mm: seq<Descriptor>)
    ensures Start(mm, 0) == 0 && Start(mm, |mm|) == TotalPages(mm)
  {
    assert mm[..|mm|] == mm;
  }

  lemma {:induction false} StartInRange(mm: seq<Descriptor>, i: nat)
    requires i < |mm|
    ensures Start(mm, i) + mm[i].pages <= TotalPages(mm)
    decreases |mm|
  {
    var last := |mm| - 1;
    assert mm[..last + 1] == mm;
    StartStep(mm, last);
    if i < last {
      assert mm[..last][..i] == mm[..i];
      StartInRange(mm[..last], i);
    }
  }

  /** The lists end with the pages of the last descriptor. */
  lemma LastRegion(mm: seq<Descriptor>)
    requires mm != []
    ensures var front, d := mm[..|mm| - 1], mm[|mm| - 1];
      var k := TotalPages(front);
      TotalPages(mm) == k + d.pages
      && FrameList(mm)[..k] == FrameList(front) && KindList(mm)[..k] == KindList(front)
      && (forall n :: 0 <= n < d.pages ==> FrameList(mm)[k..][n] == d.base / 0x1000 + n)
      && (forall n :: 0 <= n < d.pages ==> KindList(mm)[k..][n] == d.kind)
  {
  }

  lemma SliceAt<T>(s: seq<T>, k: nat, j: nat)
    requires k <= |s|
    ensures j < k ==> s[..k][j] == s[j]
    ensures j < |s| - k ==> s[k..][j] == s[k + j]
  {
  }

  /** Page n of descriptor i is frame number Start(i)+n of the list, at address base_i + 4096n. */
  lemma {:induction false} FrameListAt(mm: seq<Descriptor>, i: nat, n: nat)
    requires i < |mm| && n < mm[i].pages
    ensures Start(mm, i) + n < TotalPages(mm)
    ensures FrameList(mm)[Start(mm, i) + n] == mm[i].base / 0x1000 + n
    ensures KindList(mm)[Start(mm, i) + n] == mm[i].kind
    decreases |mm|
  {
    hide FrameList, KindList, TotalPages;
    var last := |mm| - 1;
    var k := TotalPages(mm[..last]);
    LastRegion(mm);
    if i < last {
      FrameListAt(mm[..last], i, n);
      assert mm[..last][..i] == mm[..i];
      SliceAt(FrameList(mm), k, Start(mm, i) + n);
      SliceAt(KindList(mm), k, Start(mm, i) + n);
    } else {
      SliceAt(FrameList(mm), k, n);
      SliceAt(KindList(mm), k, n);
    }
  }

  /** Every index of the list is page n of exactly the descriptor found here. */
  lemma Locate(mm: seq<Descriptor>, k: nat) returns (i: nat, n: nat)
    requires k < TotalPages(mm)
    ensures i < |mm| && n < mm[i].pages && k == Start(mm, i) + n
    decreases |mm|
  {
    var last := |mm| - 1;
    if k < TotalPages(mm[..last]) {
      i, n := Locate(mm[..last], k);
      assert mm[..last][..i] == mm[..i];
    } else {
      i, n := last, k - TotalPages(mm[..last]);
    }
  }

  lemma PagesDistinct(mm: seq<Descriptor>, a: nat, p: nat, b: nat, q: nat)
    requires WellFormedMap(mm) && a < |mm| && b < |mm| && p < mm[a].pages && q < mm[b].pages
    requires a != b || p != q
    ensures mm[a].base / 0x1000 + p != mm[b].base / 0x1000 + q
  {
    if a < b {
      assert Apart(mm[a], mm[b]);
    } else if b < a {
      assert Apart(mm[b], mm[a]);
    }
  }

  /** Disjoint aligned regions give pairwise distinct frames. */
  lemma {:induction false} FramesDistinct(mm: seq<Descriptor>, j: nat, k: nat)
    requires WellFormedMap(mm) && j < k < TotalPages(mm)
    ensures FrameList(mm)[j] != FrameList(mm)[k]
  {
    hide *;
    var a, p := Locate(mm, j);
    var b, q := Locate(mm, k);
    FrameListAt(mm, a, p);
    FrameListAt(mm, b, q);
    PagesDistinct(mm, a, p, b, q);
  }

  lemma {:induction false} FrameInRange(mm: seq<Descriptor>, k: nat)
    requires WellFormedMap(mm) && k < TotalPages(mm)
    ensures FrameList(mm)[k] < 0x100_0000_0000
  {
    var a, p := Locate(mm, k);
    FrameListAt(mm, a, p);
    assert Aligned(mm[a]);
  }

  /** get_number_of_page_frames; no wrap-around, since the regions fit the physical address space. */
  method GetNumberOfPageFrames(mm: seq<Descriptor>) returns (result: nat)
    requires WellFormedMap(mm)
    ensures result == |FrameList(mm)| && result <= 0x100_0000_0000
  {
    result := 0;
    var i := 0;
    while i < |mm|
      invariant i <= |mm| && result == Start(mm, i)
    {
      StartStep(mm, i);
      result := result + mm[i].pages;
      i := i + 1;
    }
    assert mm[..|mm|] == mm;
    MapFitsMemory(mm);
  }

  lemma {:induction false} MapFitsMemory(mm: seq<Descriptor>)
    requires WellFormedMap(mm)
    ensures Distinct(FrameList(mm)) && TotalPages(mm) <= 0x100_0000_0000
  {
    var fs := FrameList(mm);
    forall j, k | 0 <= j < k < |fs|
      ensures fs[j] != fs[k]
    {
      FramesDistinct(mm, j, k);
    }
    forall k | 0 <= k < |fs|
      ensures fs[k] < 0x100_0000_0000
    {
      FrameInRange(mm, k);
    }
    DistinctBelow(fs, 0x100_0000_0000);
  }

  /** Region k is the first of the largest conventional regions among the first n. */
  predicate LargestConventional(mm: seq<Descriptor>, n: nat, k: nat) {
    k < n <= |mm| && mm[k].kind == EFI_CONVENTIONAL_MEMORY
    && (forall i :: 0 <= i < n && mm[i].kind == EFI_CONVENTIONAL_MEMORY ==> mm[i].pages <= mm[k].pages)
    && (forall i :: 0 <= i < k && mm[i].kind == EFI_CONVENTIONAL_MEMORY ==> mm[i].pages < mm[k].pages)
  }

  /** Conventional memory is type 7 of section 7.2 of the UEFI Specification. */
  lemma LargestExact(mm: seq<Descriptor>, k: nat)
    ensures LargestConventional(mm, |mm|, k)
      <==> k < |mm| && mm[k].kind == 7
           && (forall i :: 0 <= i < |mm| && mm[i].kind == 7 ==> mm[i].pages <= mm[k].pages)
           && (forall i :: 0 <= i < k && mm[i].kind == 7 ==> mm[i].pages < mm[k].pages)
    ensures NoConventional(mm, |mm|) <==> forall i :: 0 <= i < |mm| ==> mm[i].kind != 7
  {
  }

  lemma LargestUnique(mm: seq<Descriptor>, n: nat, j: nat, k: nat)
    requires LargestConventional(mm, n, j) && LargestConventional(mm, n, k)
    ensures j == k
  {
  }

  predicate NoConventional(mm: seq<Descriptor>, n: nat)
    requires n <= |mm|
  {
    forall i :: 0 <= i < n ==> mm[i].kind != EFI_CONVENTIONAL_MEMORY
  }

  /** __get_largest_free_mem_seg; the source leaves its pointer NULL where seg is None. */
  method GetLargestFreeMemSeg(mm: seq<Descriptor>) returns (size: nat, seg: Option<nat>)
    requires WellFormedMap(mm)
    ensures seg.None? ==> size == 0 && NoConventional(mm, |mm|)
    ensures seg.Some? ==>
      exists k: nat :: LargestConventional(mm, |mm|, k) && seg.value == mm[k].base && size == mm[k].pages * PAGE_SZ
  {
    size, seg := 0, None;
    ghost var k := 0;
    var i := 0;
    while i < |mm|
      invariant i <= |mm|
      invariant seg.None? ==> size == 0 && NoConventional(mm, i)
      invariant seg.Some? ==> LargestConventional(mm, i, k) && seg.value == mm[k].base && size == mm[k].pages * PAGE_SZ
    {
      assert Aligned(mm[i]);
      if mm[i].kind == EFI_CONVENTIONAL_MEMORY {
        var segSz := mm[i].pages * PAGE_SZ;
        if segSz > size {
          size, seg, k := segSz, Some(mm[i].base), i;
        }
      }
      i := i + 1;
    }
  }
}

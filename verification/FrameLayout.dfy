/** What PhysicalMemory__init leaves in the frame array, as a function of the memory map. */
module FrameLayout {
  import opened Words
  import opened Counting
  import opened FrameStates
  import opened FrameArray
  import opened MemoryMap

  /** frame_addr <= ptr < frame_addr + PAGE_SZ */
  predicate Holds(addr: Word, ptr: Word) {
    addr <= ptr && ptr < addr + PAGE_SZ
  }

  lemma HoldsIsDivision(f: nat, addr: Word, ptr: Word)
    requires addr == f * PAGE_SZ
    ensures Holds(addr, ptr) <==> ptr / PAGE_SZ == f
  {
  }

  /** Region d is conventional and holds the 16-byte structures of the array, and the lock loop stays in the array:
      it may run on into the regions after d. */
  ghost predicate HostsArray(mm: seq<Descriptor>, d: nat) {
    d < |mm| && mm[d].kind == EFI_CONVENTIONAL_MEMORY
    && (TotalPages(mm) + 255) / 256 <= mm[d].pages && LocksStayInArray(mm, d)
  }

  /** The indices that the lock loop visits, from the first of region d on. */
  ghost function LockIndexes(mm: seq<Descriptor>, d: nat): set<nat>
    requires d <= |mm|
  {
    Range(Start(mm, d), Start(mm, d) + TotalPages(mm) / 32)
  }

  ghost predicate LocksStayInArray(mm: seq<Descriptor>, d: nat)
    requires d <= |mm|
  {
    forall j :: j in LockIndexes(mm, d) ==> j < TotalPages(mm)
  }

  lemma {:induction false} PagesAppend(a: seq<Descriptor>, b: seq<Descriptor>)
    ensures TotalPages(a + b) == TotalPages(a) + TotalPages(b)
  {
    if b == [] {
      assert a + b == a;
    } else {
      var last := |b| - 1;
      assert (a + b)[..|a| + last] == a + b[..last];
      PagesAppend(a, b[..last]);
    }
  }

  /** The lock loop stays in the array exactly if the regions from d on have frames/32 pages. */
  lemma {:induction false} LocksStayExact(mm: seq<Descriptor>, d: nat)
    requires d <= |mm|
    ensures LocksStayInArray(mm, d) <==> TotalPages(mm) / 32 <= TotalPages(mm[d..])
  {
    hide TotalPages;
    assert mm == mm[..d] + mm[d..];
    PagesAppend(mm[..d], mm[d..]);
    var n := TotalPages(mm) / 32;
    if n > TotalPages(mm[d..]) {
      assert Start(mm, d) + (n - 1) in LockIndexes(mm, d);
    }
  }

  lemma {:induction false} LocksStay(mm: seq<Descriptor>, d: nat)
    requires HostsArray(mm, d)
    ensures Start(mm, d) + TotalPages(mm) / 32 <= TotalPages(mm)
  {
    hide TotalPages;
    StartAtMost(mm, d);
    var n := TotalPages(mm) / 32;
    if n > 0 {
      assert Start(mm, d) + (n - 1) in LockIndexes(mm, d);
    }
  }

  lemma {:induction false} StartAtMost(mm: seq<Descriptor>, d: nat)
    requires d < |mm|
    ensures Start(mm, d) <= TotalPages(mm)
  {
    StartInRange(mm, d);
  }

  /** 3140 unusable pages before a conventional region of 60 hold the array, and yet the loop locks 100 indices from
      the 3140th of 3200 on: the last 40 of them lie past the array. */
  lemma LocksCanLeave() returns (mm: seq<Descriptor>)
    ensures WellFormedMap(mm) && LargestConventional(mm, |mm|, 1)
    ensures TotalPages(mm) == 3200 && (TotalPages(mm) + 255) / 256 <= mm[1].pages
    ensures Start(mm, 1) == 3140 && !LocksStayInArray(mm, 1)
  {
    var a, b := Descriptor(0, 0, 3140), Descriptor(EFI_CONVENTIONAL_MEMORY, 0xC4_4000, 60);
    mm := [a, b];
    assert mm[..1] == [a] && [a][..0] == [];
    assert TotalPages([]) == 0;
    assert TotalPages([a]) == 3140;
    assert TotalPages(mm) == 3200;
    assert 3200 in LockIndexes(mm, 1);
  }

  /** The stack lies in some frame of the map. */
  predicate StackMapped(mm: seq<Descriptor>, stack: Word) {
    stack / PAGE_SZ in FrameList(mm)
  }

  ghost predicate InitialAddrs(mm: seq<Descriptor>, addrs: seq<Word>) {
    |addrs| == TotalPages(mm) && forall j :: 0 <= j < |addrs| ==> addrs[j] == FrameList(mm)[j] * PAGE_SZ
  }

  /** The first k structures hold the addresses of the map, unusable regions are reserved, all else is free. */
  ghost predicate FilledTo(mm: seq<Descriptor>, addrs: seq<Word>, states: seq<State>, k: nat) {
    k <= |addrs| == |states| == TotalPages(mm)
    && (forall j :: 0 <= j < k ==> addrs[j] == FrameList(mm)[j] * PAGE_SZ)
    && (forall j :: 0 <= j < k ==> states[j] == if Usable(KindList(mm)[j]) then FREE else RESERVED)
    && (forall j :: k <= j < |states| ==> states[j] == FREE)
  }

  /** The state of frame j after init with the array in region d. */
  function InitialState(mm: seq<Descriptor>, d: nat, stack: Word, j: nat): State
    requires j < TotalPages(mm) && d <= |mm|
  {
    if !Usable(KindList(mm)[j]) || FrameList(mm)[j] == stack / PAGE_SZ then RESERVED
    else if Start(mm, d) <= j < Start(mm, d) + TotalPages(mm) / 32 then LOCKED
    else FREE
  }

  ghost predicate InitialStates(mm: seq<Descriptor>, d: nat, stack: Word, states: seq<State>) {
    d <= |mm| && |states| == TotalPages(mm)
    && forall j :: 0 <= j < |states| ==> states[j] == InitialState(mm, d, stack, j)
  }

  /** The states that init leaves, as a sequence. */
  function InitialStateSeq(mm: seq<Descriptor>, d: nat, stack: Word): (s: seq<State>)
    requires d <= |mm|
    ensures InitialStates(mm, d, stack, s)
  {
    seq(TotalPages(mm), j requires 0 <= j < TotalPages(mm) => InitialState(mm, d, stack, j))
  }

  /** Page n of region i after init, in the numbers of the UEFI memory types and of the states: reserved (2) if the type
      is not 3, 4 or 7 or the stack lies in the page, locked (1) if it is one of the frames/32 from region d on, else
      free (0). */
  lemma {:induction false} PageAfterInit(
    mm: seq<Descriptor>, d: nat, stack: Word, addrs: seq<Word>, states: seq<State>, i: nat, n: nat)
    requires WellFormedMap(mm) && InitialAddrs(mm, addrs) && InitialStates(mm, d, stack, states)
    requires i < |mm| && n < mm[i].pages
    ensures var j, a := Start(mm, i) + n, mm[i].base + 4096 * n;
      j < |states| && addrs[j] == a
      && states[j] == if (mm[i].kind != 3 && mm[i].kind != 4 && mm[i].kind != 7) || a <= stack < a + 4096 then 2
                      else if Start(mm, d) <= j < Start(mm, d) + TotalPages(mm) / 32 then 1 else 0
  {
    hide FrameList, KindList, TotalPages, Start;
    FrameListAt(mm, i, n);
    UsableKinds(mm[i].kind);
    assert Aligned(mm[i]);
    HoldsIsDivision(FrameList(mm)[Start(mm, i) + n], mm[i].base + 4096 * n, stack);
  }

  lemma {:induction false} InitialStatesExact(mm: seq<Descriptor>, d: nat, stack: Word, states: seq<State>)
    requires InitialStates(mm, d, stack, states)
    ensures forall j :: 0 <= j < |states| ==>
      var kind := KindList(mm)[j];
      states[j] == if (kind != 3 && kind != 4 && kind != 7) || FrameList(mm)[j] == stack / 4096 then 2
                   else if Start(mm, d) <= j < Start(mm, d) + TotalPages(mm) / 32 then 1 else 0
  {
    hide FrameList, KindList, TotalPages, Start;
  }

  lemma InitialStatesUnique(mm: seq<Descriptor>, d: nat, stack: Word, s: seq<State>)
    requires InitialStates(mm, d, stack, s)
    ensures s == InitialStateSeq(mm, d, stack)
  {
  }

  lemma {:induction false} NothingFilled(mm: seq<Descriptor>, addrs: seq<Word>, states: seq<State>)
    requires |addrs| == |states| == TotalPages(mm) && forall i :: 0 <= i < |states| ==> states[i] == FREE
    ensures FilledTo(mm, addrs, states, 0)
  {
  }

  /** One round of the inner loop of init: the address of page n of region i, and its reservation. */
  lemma FilledStep(mm: seq<Descriptor>, addrs: seq<Word>, states: seq<State>, i: nat, n: nat, a: Word)
    requires i < |mm| && n < mm[i].pages && Aligned(mm[i]) && a == mm[i].base + n * PAGE_SZ
    requires FilledTo(mm, addrs, states, Start(mm, i) + n)
    ensures var k := Start(mm, i) + n;
      k < |states|
      && FilledTo(mm, addrs[k := a], if Usable(mm[i].kind) then states else Step(states, Reserve(k)), k + 1)
  {
    hide FrameList, KindList, TotalPages, Start;
    FrameListAt(mm, i, n);
  }

  /** After that round, page n of region i is free (0) if the region's type is 3, 4 or 7, and reserved (2) if not. */
  lemma FilledPage(mm: seq<Descriptor>, addrs: seq<Word>, states: seq<State>, i: nat, n: nat)
    requires i < |mm| && n < mm[i].pages && Aligned(mm[i]) && FilledTo(mm, addrs, states, Start(mm, i) + n + 1)
    ensures var k, kind := Start(mm, i) + n, mm[i].kind;
      addrs[k] == mm[i].base + 4096 * n
      && states[k] == if kind == 3 || kind == 4 || kind == 7 then 0 else 2
  {
    hide FrameList, KindList, TotalPages, Start;
    FrameListAt(mm, i, n);
  }

  /** t is s with the frame of the stack reserved. */
  ghost predicate StackReserved(mm: seq<Descriptor>, stack: Word, s: seq<State>, t: seq<State>) {
    |s| == |t| == TotalPages(mm)
    && forall j :: 0 <= j < |s| ==> t[j] == if FrameList(mm)[j] == stack / PAGE_SZ then RESERVED else s[j]
  }

  /** t is s with the free frames lo .. hi-1 locked. */
  ghost predicate RangeLocked(s: seq<State>, t: seq<State>, lo: nat, hi: nat) {
    |s| == |t| && forall j :: 0 <= j < |s| ==> t[j] == if lo <= j < hi && s[j] == FREE then LOCKED else s[j]
  }

  lemma NothingLocked(s: seq<State>, lo: nat)
    ensures RangeLocked(s, s, lo, lo)
  {
  }

  lemma RangeLockedStep(s: seq<State>, t: seq<State>, lo: nat, hi: nat)
    requires lo <= hi < |s| && RangeLocked(s, t, lo, hi)
    ensures RangeLocked(s, Step(t, Lock(hi)), lo, hi + 1)
  {
  }

  /** The lookup of the stack finds its frame, and reserving that index reserves the stack. */
  lemma {:induction false} StackLookup(
    mm: seq<Descriptor>, addrs: seq<Word>, states: seq<State>, stack: Word, index: nat, found: bool)
    requires WellFormedMap(mm) && StackMapped(mm, stack) && FilledTo(mm, addrs, states, TotalPages(mm))
    requires if found then index < |addrs| && Holds(addrs[index], stack)
             else forall i :: 0 <= i < |addrs| ==> !Holds(addrs[i], stack)
    ensures found && StackReserved(mm, stack, states, Step(states, Reserve(index)))
  {
    hide FrameList, KindList, TotalPages, WellFormedMap, Holds;
    MapFitsMemory(mm);
    var k :| 0 <= k < |addrs| && FrameList(mm)[k] == stack / PAGE_SZ;
    HoldsIsDivision(FrameList(mm)[k], addrs[k], stack);
    HoldsIsDivision(FrameList(mm)[index], addrs[index], stack);
  }

  /** The three phases of init compose to the states it promises. */
  lemma {:induction false} PhasesGiveInitial(
    mm: seq<Descriptor>, d: nat, stack: Word, addrs: seq<Word>, s: seq<State>, t: seq<State>, u: seq<State>)
    requires d <= |mm| && FilledTo(mm, addrs, s, TotalPages(mm)) && StackReserved(mm, stack, s, t)
    requires RangeLocked(t, u, Start(mm, d), Start(mm, d) + TotalPages(mm) / 32)
    ensures InitialAddrs(mm, addrs) && InitialStates(mm, d, stack, u)
  {
  }

  lemma BasesDistinct(mm: seq<Descriptor>, i: nat, j: nat)
    requires WellFormedMap(mm) && i < |mm| && j < |mm| && mm[i].base == mm[j].base
    ensures i == j
  {
    assert Aligned(mm[i]) && Aligned(mm[j]);
    assert i < j ==> Apart(mm[i], mm[j]);
    assert j < i ==> Apart(mm[j], mm[i]);
  }

  /** The array lies inside the region that hosts it. */
  lemma {:induction false} ArrayFits(mm: seq<Descriptor>, d: nat)
    requires WellFormedMap(mm) && HostsArray(mm, d)
    ensures Fits(mm[d].base / PAGE_SZ, TotalPages(mm))
    ensures forall f :: f in ArrayFrames(mm[d].base / PAGE_SZ, TotalPages(mm)) ==>
      mm[d].base / PAGE_SZ <= f < mm[d].base / PAGE_SZ + mm[d].pages
  {
    assert Aligned(mm[d]);
    StartInRange(mm, d);
  }

  /** The n/32 frames that init locks cover the 16n bytes of the array exactly when n is 0 or at least 32. */
  lemma LockedFramesCoverArray(n: nat)
    ensures 16 * n <= n / 32 * PAGE_SZ <==> n == 0 || 32 <= n
    ensures n == 0 || 32 <= n <==> (n + 255) / 256 <= n / 32
  {
  }

  lemma {:induction false} FilledAddrs(mm: seq<Descriptor>, addrs: seq<Word>, states: seq<State>)
    requires WellFormedMap(mm) && FilledTo(mm, addrs, states, TotalPages(mm))
    ensures forall j :: 0 <= j < |addrs| ==> addrs[j] < 0x10_0000_0000_0000
  {
    forall j | 0 <= j < |addrs|
      ensures addrs[j] < 0x10_0000_0000_0000
    {
      FrameInRange(mm, j);
    }
  }

  /** Every frame that holds part of the array is one that init locked or reserved. */
  lemma {:induction false} ArrayNeverFree(mm: seq<Descriptor>, d: nat, stack: Word, states: seq<State>, j: nat)
    requires WellFormedMap(mm) && HostsArray(mm, d) && InitialStates(mm, d, stack, states)
    requires 32 <= TotalPages(mm) && j < |states|
    requires FrameList(mm)[j] in ArrayFrames(mm[d].base / PAGE_SZ, TotalPages(mm))
    ensures states[j] != FREE
  {
    var n := FrameList(mm)[j] - mm[d].base / PAGE_SZ;
    ArrayFits(mm, d);
    LockedFramesCoverArray(TotalPages(mm));
    FrameListAt(mm, d, n);
    MapFitsMemory(mm);
    assert j == Start(mm, d) + n;
  }

  /** The allocator keeps its own array out of reach exactly from 32 frames on: with 1 to 31 frames nothing is
      locked, and only the stack could keep the array's one frame from being handed out. */
  lemma {:induction false} ArrayProtectedExact(mm: seq<Descriptor>, d: nat, stack: Word, states: seq<State>)
    requires WellFormedMap(mm) && HostsArray(mm, d) && InitialStates(mm, d, stack, states)
    ensures 32 <= TotalPages(mm) || stack / PAGE_SZ == mm[d].base / PAGE_SZ <==>
      forall j :: 0 <= j < |states| && FrameList(mm)[j] in ArrayFrames(mm[d].base / PAGE_SZ, TotalPages(mm)) ==>
        states[j] != FREE
  {
    hide KindList, WellFormedMap;
    assert Aligned(mm[d]) by {
      MapAligned(mm, d);
    }
    FrameListAt(mm, d, 0);
    var first := Start(mm, d);
    assert FrameList(mm)[first] in ArrayFrames(mm[d].base / PAGE_SZ, TotalPages(mm));
    forall j | 0 <= j < |states| && FrameList(mm)[j] in ArrayFrames(mm[d].base / PAGE_SZ, TotalPages(mm))
      ensures 32 <= TotalPages(mm) ==> states[j] != FREE
      ensures TotalPages(mm) < 32 ==> FrameList(mm)[j] == FrameList(mm)[first]
    {
      if 32 <= TotalPages(mm) {
        ArrayNeverFree(mm, d, stack, states, j);
      }
    }
  }

  lemma MapAligned(mm: seq<Descriptor>, d: nat)
    requires WellFormedMap(mm) && d < |mm|
    ensures Aligned(mm[d])
  {
  }

  /** On the initial array, the frame lookup inverts frame addressing. */
  lemma LookupInvertsAddressing(mm: seq<Descriptor>, addrs: seq<Word>, j: nat, off: nat, k: nat)
    requires WellFormedMap(mm) && InitialAddrs(mm, addrs) && j < |addrs| && k < |addrs| && off < PAGE_SZ
    requires addrs[j] + off < 0x1_0000_0000_0000_0000
    ensures Holds(addrs[k], addrs[j] + off) <==> k == j
  {
    HoldsIsDivision(FrameList(mm)[k], addrs[k], addrs[j] + off);
    MapFitsMemory(mm);
  }

  /** A pointer is in no frame of the array exactly when it is in a hole of the memory map. */
  lemma LookupFailsInHoles(mm: seq<Descriptor>, addrs: seq<Word>, ptr: Word)
    requires WellFormedMap(mm) && InitialAddrs(mm, addrs)
    ensures (forall j :: 0 <= j < |addrs| ==> !Holds(addrs[j], ptr)) <==>
            (forall i :: 0 <= i < |mm| ==> !(mm[i].base <= ptr < mm[i].base + mm[i].pages * PAGE_SZ))
  {
    hide FrameList, KindList, TotalPages, Start;
    forall i | 0 <= i < |mm| && mm[i].base <= ptr < mm[i].base + mm[i].pages * PAGE_SZ
      ensures exists j :: 0 <= j < |addrs| && Holds(addrs[j], ptr)
    {
      assert Aligned(mm[i]);
      var n := ptr / PAGE_SZ - mm[i].base / PAGE_SZ;
      FrameListAt(mm, i, n);
      assert Holds(addrs[Start(mm, i) + n], ptr);
    }
    forall j | 0 <= j < |addrs| && Holds(addrs[j], ptr)
      ensures exists i :: 0 <= i < |mm| && mm[i].base <= ptr < mm[i].base + mm[i].pages * PAGE_SZ
    {
      var i, n := Locate(mm, j);
      FrameListAt(mm, i, n);
      assert Aligned(mm[i]);
      assert mm[i].base <= ptr < mm[i].base + mm[i].pages * PAGE_SZ;
    }
  }
}

/** How many free frames a memory map leaves once the allocator is initialised. */
module BootNeeds {
  import opened Words
  import opened Counting
  import opened FrameStates
  import opened MemoryMap
  import opened FrameLayout

  /** The pages of all regions whose frames may be handed out. */
  function UsablePages(mm: seq<Descriptor>): nat {
    if mm == [] then 0
    else UsablePages(mm[..|mm| - 1]) + if Usable(mm[|mm| - 1].kind) then mm[|mm| - 1].pages else 0
  }

  function KindState(kind: nat): State { if Usable(kind) then FREE else RESERVED }

  function KindStates(ks: seq<nat>): (s: seq<State>)
    ensures |s| == |ks| && forall i :: 0 <= i < |s| ==> s[i] == KindState(ks[i])
  {
    seq(|ks|, i requires 0 <= i < |ks| => KindState(ks[i]))
  }

  lemma {:induction false} CountAppend(a: seq<State>, b: seq<State>, x: State)
    ensures Count(a + b, x) == Count(a, x) + Count(b, x)
  {
    if b == [] {
      assert a + b == a;
    } else {
      var last := |b| - 1;
      assert (a + b)[..|a| + last] == a + b[..last];
      CountAppend(a, b[..last], x);
    }
  }

  lemma KindStatesAppend(a: seq<nat>, b: seq<nat>)
    ensures KindStates(a + b) == KindStates(a) + KindStates(b)
  {
  }

  lemma {:induction false} UsableStep(mm: seq<Descriptor>)
    ensures UsablePages([]) == 0 && KindStates(KindList([])) == []
    ensures mm != [] ==>
      UsablePages(mm)
      == UsablePages(mm[..|mm| - 1]) + if Usable(mm[|mm| - 1].kind) then mm[|mm| - 1].pages else 0
  {
    assert KindList([]) == [];
  }

  /** The frames of one region. */
  lemma RegionCount(ks: seq<nat>, kind: nat)
    requires forall i :: 0 <= i < |ks| ==> ks[i] == kind
    ensures Count(KindStates(ks), FREE) == if Usable(kind) then |ks| else 0
  {
    hide Count;
    CountUniform(KindStates(ks), KindState(kind), FREE);
  }

  /** Going by region types alone, the free frames are the usable pages. */
  lemma {:induction false} KindsCount(mm: seq<Descriptor>)
    ensures Count(KindStates(KindList(mm)), FREE) == UsablePages(mm)
  {
    hide *;
    UsableStep(mm);
    if mm == [] {
      CountUniform([], FREE, FREE);
    } else {
      var front, d := mm[..|mm| - 1], mm[|mm| - 1];
      LastRegion(mm);
      var a, b := KindList(front), KindList(mm)[TotalPages(front)..];
      KindsCount(front);
      RegionCount(b, d.kind);
      assert KindList(mm) == a + b;
      KindStatesAppend(a, b);
      CountAppend(KindStates(a), KindStates(b), FREE);
    }
  }

  /** Sequences that differ in the positions of a set differ in a count by no more than its size. */
  lemma {:induction false} CountDiffer(s: seq<State>, t: seq<State>, at: set<nat>, x: State)
    requires |s| == |t| && forall i :: 0 <= i < |s| && i !in at ==> s[i] == t[i]
    ensures Count(s, x) <= Count(t, x) + |at|
    decreases |at|
  {
    if at == {} {
      assert s == t;
    } else {
      var i :| i in at;
      if i < |s| {
        CountUpdate(t, i, s[i], x);
        CountDiffer(s, t[i := s[i]], at - {i}, x);
      } else {
        CountDiffer(s, t, at - {i}, x);
      }
    }
  }

  /** The lists of the first k regions are the first parts of the lists. */
  lemma {:induction false} ListsPrefix(mm: seq<Descriptor>, k: nat)
    requires k <= |mm|
    ensures Start(mm, k) <= TotalPages(mm)
    ensures FrameList(mm[..k]) == FrameList(mm)[..Start(mm, k)] && KindList(mm[..k]) == KindList(mm)[..Start(mm, k)]
    decreases |mm|
  {
    if k == |mm| {
      assert mm[..k] == mm;
    } else {
      hide FrameList, KindList, TotalPages;
      var front := mm[..|mm| - 1];
      ListsPrefix(front, k);
      LastRegion(mm);
      assert front[..k] == mm[..k];
      SliceTwice(FrameList(mm), TotalPages(front), Start(mm, k));
      SliceTwice(KindList(mm), TotalPages(front), Start(mm, k));
    }
  }

  lemma SliceTwice<T>(s: seq<T>, j: nat, k: nat)
    requires k <= j <= |s|
    ensures s[..j][..k] == s[..k]
  {
  }

  /** After init all usable pages of the first k regions are free, but for the stack's frame and the array's. */
  lemma {:induction false} FreeAfterInit(mm: seq<Descriptor>, d: nat, stack: Word, k: nat)
    requires WellFormedMap(mm) && HostsArray(mm, d) && k <= |mm|
    ensures Start(mm, k) <= TotalPages(mm)
    ensures UsablePages(mm[..k]) <= Count(InitialStateSeq(mm, d, stack)[..Start(mm, k)], FREE) + TotalPages(mm) / 32 + 1
  {
    assert d < |mm|;
    hide FrameList, KindList, TotalPages, UsablePages, Count, WellFormedMap, HostsArray, Start;
    ListsPrefix(mm, k);
    KindsCount(mm[..k]);
    var low, first, n := Start(mm, k), Start(mm, d), TotalPages(mm) / 32;
    var s, t := KindStates(KindList(mm[..k])), InitialStateSeq(mm, d, stack)[..low];
    var stacks := StackIndexes(mm, stack);
    var at := Range(first, first + n) + stacks;
    forall i | 0 <= i < low && i !in at
      ensures s[i] == t[i]
    {
      assert KindList(mm[..k])[i] == KindList(mm)[i];
    }
    CountDiffer(s, t, at, FREE);
    assert |at| <= n + 1 by {
      SetUnion(Range(first, first + n), stacks);
    }
  }

  /** The indexes of the stack's frame: at most one. */
  lemma StackIndexes(mm: seq<Descriptor>, stack: Word) returns (at: set<nat>)
    requires WellFormedMap(mm)
    ensures |at| <= 1 && forall j :: 0 <= j < TotalPages(mm) ==> (j in at <==> FrameList(mm)[j] == stack / PAGE_SZ)
  {
    hide FrameList, TotalPages, WellFormedMap;
    MapFitsMemory(mm);
    if i: nat :| i < TotalPages(mm) && FrameList(mm)[i] == stack / PAGE_SZ {
      at := {i};
    } else {
      at := {};
    }
  }

  lemma SetUnion(a: set<nat>, b: set<nat>)
    ensures |a + b| <= |a| + |b|
  {
    assert a + b == a + (b - a);
    assert a !! (b - a);
    SubsetSize(b - a, b);
  }
}

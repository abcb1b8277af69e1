/** What the allocator does to the sequence of frame states, apart from where it is stored. */
module FrameStates {
  import opened Words

  type State = s: nat | s < 256

  const FREE: State := 0
  const LOCKED: State := 1
  const RESERVED: State := 2

  predicate Known(s: seq<State>) {
    forall i :: 0 <= i < |s| ==> s[i] <= RESERVED
  }

  function Count(s: seq<State>, x: State): (n: nat)
    ensures n <= |s|
  {
    if s == [] then 0 else Count(s[..|s| - 1], x) + if s[|s| - 1] == x then 1 else 0
  }

  lemma CountUpdate(s: seq<State>, i: nat, y: State, x: State)
    requires i < |s|
    ensures Count(s[i := y], x) + (if s[i] == x then 1 else 0) == Count(s, x) + if y == x then 1 else 0
  {
    var last := |s| - 1;
    if i == last {
      assert s[i := y][..last] == s[..last];
    } else {
      assert s[i := y][..last] == s[..last][i := y];
      CountUpdate(s[..last], i, y, x);
    }
  }

  /** Updating position i changes the count over a prefix that reaches i, and no other. */
  lemma {:induction false} CountPrefixUpdate(s: seq<State>, k: nat, i: nat, y: State, x: State)
    requires i < |s| && k <= |s|
    ensures i < k ==>
      Count(s[i := y][..k], x) + (if s[i] == x then 1 else 0) == Count(s[..k], x) + if y == x then 1 else 0
    ensures i >= k ==> Count(s[i := y][..k], x) == Count(s[..k], x)
  {
    if i < k {
      assert s[i := y][..k] == s[..k][i := y];
      CountUpdate(s[..k], i, y, x);
    } else {
      assert s[i := y][..k] == s[..k];
    }
  }

  lemma {:induction false} CountsSum(s: seq<State>)
    requires Known(s)
    ensures Count(s, FREE) + Count(s, LOCKED) + Count(s, RESERVED) == |s|
  {
    if s != [] {
      CountsSum(s[..|s| - 1]);
    }
  }

  lemma {:induction false} CountUniform(s: seq<State>, y: State, x: State)
    requires forall i :: 0 <= i < |s| ==> s[i] == y
    ensures Count(s, x) == if x == y then |s| else 0
  {
    if s != [] {
      CountUniform(s[..|s| - 1], y, x);
    }
  }

  /** The lowest index of a free frame, or |s|. */
  function FirstFree(s: seq<State>): (i: nat)
    ensures i <= |s| && (forall j :: 0 <= j < i ==> s[j] != FREE)
    ensures i < |s| ==> s[i] == FREE
  {
    if s == [] then 0
    else
      var i := FirstFree(s[..|s| - 1]);
      assert forall j :: 0 <= j < |s| - 1 ==> s[j] == s[..|s| - 1][j];
      if i < |s| - 1 || s[|s| - 1] == FREE then i else |s|
  }

  /** The cached count of free frames answers the same question as the scan. */
  lemma {:induction false} NoneFree(s: seq<State>)
    ensures Count(s, FREE) == 0 <==> FirstFree(s) == |s|
  {
    if s != [] {
      NoneFree(s[..|s| - 1]);
    }
  }

  /** A prefix with a free frame holds the lowest free frame. */
  lemma {:induction false} FirstFreeInPrefix(s: seq<State>, k: nat)
    requires k <= |s| && 0 < Count(s[..k], FREE)
    ensures FirstFree(s) < k
  {
    NoneFree(s[..k]);
    var i := FirstFree(s[..k]);
    assert s[i] == FREE;
  }

  // ---------------------------------------------------------------- runs of allocator calls

  function Move(s: seq<State>, i: nat, before: State, after: State): seq<State>
    requires i < |s|
  {
    if s[i] == before then s[i := after] else s
  }

  datatype Call = Request | Lock(index: nat) | Free(index: nat) | Reserve(index: nat) | Unreserve(index: nat)

  predicate Legal(c: Call, frames: nat) {
    c.Request? || c.index < frames
  }

  function Step(s: seq<State>, c: Call): (t: seq<State>)
    requires Legal(c, |s|)
    ensures |t| == |s|
  {
    match c
    case Request => if FirstFree(s) < |s| then s[FirstFree(s) := LOCKED] else s
    case Lock(i) => Move(s, i, FREE, LOCKED)
    case Free(i) => Move(s, i, LOCKED, FREE)
    case Reserve(i) => Move(s, i, FREE, RESERVED)
    case Unreserve(i) => Move(s, i, RESERVED, FREE)
  }

  /** Every frame after every call: 0 is free, 1 locked, 2 reserved. */
  lemma StepAt(s: seq<State>, c: Call, j: nat)
    requires Legal(c, |s|) && j < |s|
    ensures Step(s, c)[j]
      == match c
         case Request => if s[j] == 0 && (forall i :: 0 <= i < j ==> s[i] != 0) then 1 else s[j]
         case Lock(i) => if j == i && s[j] == 0 then 1 else s[j]
         case Free(i) => if j == i && s[j] == 1 then 0 else s[j]
         case Reserve(i) => if j == i && s[j] == 0 then 2 else s[j]
         case Unreserve(i) => if j == i && s[j] == 2 then 0 else s[j]
  {
  }

  function Run(s: seq<State>, calls: seq<Call>): (t: seq<State>)
    requires forall c :: c in calls ==> Legal(c, |s|)
    ensures |t| == |s|
  {
    if calls == [] then s else Step(Run(s, calls[..|calls| - 1]), calls[|calls| - 1])
  }

  /** The index that call number k of the run hands out. */
  function Granted(s: seq<State>, calls: seq<Call>, k: nat): Option<nat>
    requires (forall c :: c in calls ==> Legal(c, |s|)) && k < |calls|
  {
    var i := FirstFree(Run(s, calls[..k]));
    if calls[k].Request? && i < |s| then Some(i) else None
  }

  lemma {:induction false} RunStep(s: seq<State>, calls: seq<Call>, k: nat)
    requires (forall c :: c in calls ==> Legal(c, |s|)) && k < |calls|
    ensures Run(s, calls[..k + 1]) == Step(Run(s, calls[..k]), calls[k])
  {
    assert calls[..k + 1][..k] == calls[..k];
  }

  /** A locked frame stays locked until it is freed. */
  lemma {:induction false} LockedUntilFreed(s: seq<State>, calls: seq<Call>, a: nat, b: nat, i: nat)
    requires (forall c :: c in calls ==> Legal(c, |s|)) && a <= b <= |calls| && i < |s|
    requires Run(s, calls[..a])[i] == LOCKED
    requires forall c :: a <= c < b ==> calls[c] != Free(i)
    ensures Run(s, calls[..b])[i] == LOCKED
    decreases b
  {
    if a < b {
      LockedUntilFreed(s, calls, a, b - 1, i);
      RunStep(s, calls, b - 1);
    }
  }

  /** Whatever calls come between, a frame is handed out twice only if it was freed in between. */
  lemma HeldFrameNotReissued(s: seq<State>, calls: seq<Call>, a: nat, b: nat)
    requires (forall c :: c in calls ==> Legal(c, |s|)) && a < b < |calls|
    requires Granted(s, calls, a).Some? && Granted(s, calls, a) == Granted(s, calls, b)
    ensures exists c :: a < c < b && calls[c] == Free(Granted(s, calls, a).value)
  {
    var i := Granted(s, calls, a).value;
    RunStep(s, calls, a);
    if forall c :: a < c < b ==> calls[c] != Free(i) {
      LockedUntilFreed(s, calls, a + 1, b, i);
    }
  }

  /** A request hands out the lowest free frame, so never a reserved one, and None only if no frame is free. */
  lemma {:induction false} GrantedIsLowestFree(s: seq<State>, calls: seq<Call>, k: nat)
    requires (forall c :: c in calls ==> Legal(c, |s|)) && k < |calls| && calls[k] == Request
    ensures var t, g := Run(s, calls[..k]), Granted(s, calls, k);
      if g.None? then Count(t, FREE) == 0
      else t[g.value] == FREE && (forall j :: 0 <= j < g.value ==> t[j] != FREE)
           && Run(s, calls[..k + 1]) == t[g.value := LOCKED]
  {
    RunStep(s, calls, k);
    NoneFree(Run(s, calls[..k]));
  }

  /** No run loses or invents a frame. */
  lemma {:induction false} RunConserves(s: seq<State>, calls: seq<Call>)
    requires Known(s) && forall c :: c in calls ==> Legal(c, |s|)
    ensures var t := Run(s, calls);
      Known(t) && Count(t, FREE) + Count(t, LOCKED) + Count(t, RESERVED) == |s|
  {
    if calls != [] {
      RunConserves(s, calls[..|calls| - 1]);
    }
    CountsSum(Run(s, calls));
  }
}

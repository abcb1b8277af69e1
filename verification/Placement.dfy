/** Which frame each structure gets: mapping calls, and allocator calls by other code, as one deterministic machine. */
module Placement {
  import opened Words
  import opened Mmu
  import opened FrameStates
  import opened PageTree
  import opened MappingLog
  import opened IdentityRuns

  /** A call of map_vaddr_to_paddr, or a call of the allocator by other code. */
  datatype Event = Mapped(mapping: Mapping) | Called(call: Call)

  /** The frames of the structures and the states of the managed frames. */
  datatype Layout = Layout(tables: map<Node, Frame>, states: seq<State>)

  predicate LegalEvents(events: seq<Event>, frames: nat) {
    forall e :: e in events ==> e.Called? ==> Legal(e.call, frames)
  }

  /** Structure n is created in the lowest free frame, unless it exists. */
  function Place(pfn: seq<Frame>, a: Layout, n: Node): (b: Layout)
    requires |a.states| == |pfn|
    ensures |b.states| == |pfn|
  {
    var i := FirstFree(a.states);
    if n in a.tables || i == |pfn| then a else Layout(a.tables[n := pfn[i]], Step(a.states, Request))
  }

  function PlacePath(pfn: seq<Frame>, a: Layout, v: nat): (b: Layout)
    requires |a.states| == |pfn|
    ensures |b.states| == |pfn|
  {
    Place(pfn, Place(pfn, Place(pfn, a, NodeOf(3, v)), NodeOf(2, v)), NodeOf(1, v))
  }

  lemma PathPlaced(pfn: seq<Frame>, a: Layout, v: nat)
    requires |a.states| == |pfn|
    ensures PlacePath(pfn, a, v)
            == Place(pfn, Place(pfn, Place(pfn, a, NodeOf(3, v)), NodeOf(2, v)), NodeOf(1, v))
  {
    hide Place;
  }

  function After(pfn: seq<Frame>, a: Layout, e: Event): (b: Layout)
    requires |a.states| == |pfn| && (e.Called? ==> Legal(e.call, |pfn|))
    ensures |b.states| == |pfn|
  {
    match e
    case Mapped(m) => PlacePath(pfn, a, m.page)
    case Called(c) => Layout(a.tables, Step(a.states, c))
  }

  function Execute(pfn: seq<Frame>, a: Layout, events: seq<Event>): (b: Layout)
    requires |a.states| == |pfn| && LegalEvents(events, |pfn|)
    ensures |b.states| == |pfn|
  {
    if events == [] then a else After(pfn, Execute(pfn, a, events[..|events| - 1]), events[|events| - 1])
  }

  /** The mappings among the events. */
  function Log(events: seq<Event>): seq<Mapping> {
    if events == [] then []
    else
      var e := events[|events| - 1];
      Log(events[..|events| - 1]) + if e.Mapped? then [e.mapping] else []
  }

  /** A run of mapping calls alone. */
  function Calls(run: seq<Mapping>): seq<Event> {
    seq(|run|, i requires 0 <= i < |run| => Mapped(run[i]))
  }

  lemma {:induction false} EventStep(pfn: seq<Frame>, a: Layout, events: seq<Event>, e: Event)
    requires |a.states| == |pfn| && LegalEvents(events, |pfn|) && (e.Called? ==> Legal(e.call, |pfn|))
    ensures LegalEvents(events + [e], |pfn|)
    ensures Execute(pfn, a, events + [e]) == After(pfn, Execute(pfn, a, events), e)
    ensures Log(events + [e]) == Log(events) + if e.Mapped? then [e.mapping] else []
  {
    hide After;
    assert (events + [e])[..|events|] == events;
  }

  lemma CallsStep(run: seq<Mapping>, e: Mapping)
    ensures Calls(run + [e]) == Calls(run) + [Mapped(e)]
  {
  }

  lemma CallsAppend(a: seq<Mapping>, b: seq<Mapping>)
    ensures Calls(a + b) == Calls(a) + Calls(b)
  {
  }

  lemma NoCalls(before: seq<Event>)
    ensures before + Calls([]) == before
  {
  }

  lemma LogOfCalls(run: seq<Mapping>)
    ensures Log(Calls(run)) == run
  {
    if run != [] {
      var last := |run| - 1;
      LogOfCalls(run[..last]);
      assert Calls(run)[..last] == Calls(run[..last]);
    }
  }

  // ---------------------------------------------------------------- accounting

  lemma PlaceAccounts(pfn: seq<Frame>, a: Layout, n: Node)
    requires |a.states| == |pfn|
    ensures var b := Place(pfn, a, n); Count(b.states, LOCKED) + |a.tables| == Count(a.states, LOCKED) + |b.tables|
  {
    hide Count;
    var i := FirstFree(a.states);
    if n !in a.tables && i < |pfn| {
      CountUpdate(a.states, i, LOCKED, LOCKED);
      assert a.tables[n := pfn[i]].Keys == a.tables.Keys + {n};
    }
  }

  /** A run of mapping calls locks one frame for each structure it creates. */
  lemma {:induction false} ExecuteAccounts(pfn: seq<Frame>, a: Layout, events: seq<Event>)
    requires |a.states| == |pfn| && forall e :: e in events ==> e.Mapped?
    ensures var b := Execute(pfn, a, events);
      Count(b.states, LOCKED) + |a.tables| == Count(a.states, LOCKED) + |b.tables|
  {
    hide Count, Place;
    if events != [] {
      var last := |events| - 1;
      ExecuteAccounts(pfn, a, events[..last]);
      var b := Execute(pfn, a, events[..last]);
      assert events[last] in events;
      var v := events[last].mapping.page;
      PlaceAccounts(pfn, b, NodeOf(3, v));
      PlaceAccounts(pfn, Place(pfn, b, NodeOf(3, v)), NodeOf(2, v));
      PlaceAccounts(pfn, Place(pfn, Place(pfn, b, NodeOf(3, v)), NodeOf(2, v)), NodeOf(1, v));
    }
  }

  // ---------------------------------------------------------------- the placement in closed form

  /** The indices of the free frames, lowest first. */
  function FreeList(s: seq<State>): (free: seq<nat>)
    ensures forall k :: 0 <= k < |free| ==> free[k] < |s| && s[free[k]] == FREE
    ensures forall j, k :: 0 <= j < k < |free| ==> free[j] < free[k]
  {
    if s == [] then []
    else FreeList(s[..|s| - 1]) + if s[|s| - 1] == FREE then [|s| - 1] else []
  }

  lemma {:induction false} FreeListCount(s: seq<State>)
    ensures |FreeList(s)| == Count(s, FREE)
  {
    if s != [] {
      FreeListCount(s[..|s| - 1]);
    }
  }

  /** A request takes the head of the list of free frames. */
  lemma RequestTakesHead(s: seq<State>)
    ensures FreeList(s) == [] <==> FirstFree(s) == |s|
    ensures FreeList(s) != [] ==>
      FirstFree(s) == FreeList(s)[0] && FreeList(s[FirstFree(s) := LOCKED]) == FreeList(s)[1..]
  {
    hide FreeList, FirstFree;
    if s == [] {
      FreeListOfNone();
    } else {
      var last := |s| - 1;
      var front, x := s[..last], s[last];
      RequestTakesHead(front);
      FreeListStep(front, x);
      assert s == front + [x];
      var i := FirstFree(front);
      if i < last {
        FreeListStep(front[i := LOCKED], x);
        assert s[i := LOCKED] == front[i := LOCKED] + [x];
      } else if x == FREE {
        FreeListStep(front, LOCKED);
        assert s[last := LOCKED] == front + [LOCKED];
      }
    }
  }

  lemma FreeListOfNone()
    ensures FreeList([]) == [] && FirstFree([]) == 0
  {
  }

  /** One more frame at the end. */
  lemma {:induction false} FreeListStep(s: seq<State>, x: State)
    ensures FreeList(s + [x]) == FreeList(s) + if x == FREE then [|s|] else []
    ensures FirstFree(s + [x]) == if FirstFree(s) < |s| || x == FREE then FirstFree(s) else |s| + 1
  {
    assert (s + [x])[..|s|] == s;
  }

  /** The structures in the order in which a run first needs them. */
  function Order(run: seq<Mapping>): seq<Node> {
    if run == [] then [ROOT]
    else
      var v := run[|run| - 1].page;
      Needs(Needs(Needs(Order(run[..|run| - 1]), NodeOf(3, v)), NodeOf(2, v)), NodeOf(1, v))
  }

  function Needs(order: seq<Node>, n: Node): seq<Node> {
    if n in order then order else order + [n]
  }

  ghost predicate NoneTwice(order: seq<Node>) {
    forall j, k :: 0 <= j < k < |order| ==> order[j] != order[k]
  }

  /** Structure number r of the order is in the frame of the r-th free index; the PML4, number 0, in its own. */
  ghost predicate TablesInOrder(
    pfn: seq<Frame>, root: Frame, free: seq<nat>, order: seq<Node>, tables: map<Node, Frame>)
    requires (forall k :: 0 <= k < |free| ==> free[k] < |pfn|) && 1 <= |order| <= |free| + 1
  {
    order[0] == ROOT && (forall n :: n in tables <==> n in order) && tables[ROOT] == root
    && (forall r :: 1 <= r < |order| ==> tables[order[r]] == pfn[free[r - 1]])
  }

  /** The structures of the order are placed in this way, and the free frames left are the rest of the list. */
  ghost predicate PlacedInOrder(pfn: seq<Frame>, root: Frame, s: seq<State>, order: seq<Node>, b: Layout) {
    var free := FreeList(s);
    |b.states| == |s| == |pfn| && 1 <= |order| <= |free| + 1 && NoneTwice(order)
    && FreeList(b.states) == free[|order| - 1..] && TablesInOrder(pfn, root, free, order, b.tables)
  }

  lemma OnceMore(order: seq<Node>, n: Node)
    requires NoneTwice(order) && n !in order
    ensures NoneTwice(order + [n])
  {
  }

  lemma TablesOnceMore(
    pfn: seq<Frame>, root: Frame, free: seq<nat>, order: seq<Node>, tables: map<Node, Frame>, n: Node)
    requires (forall k :: 0 <= k < |free| ==> free[k] < |pfn|) && 1 <= |order| <= |free| && n !in order
    requires TablesInOrder(pfn, root, free, order, tables)
    ensures TablesInOrder(pfn, root, free, order + [n], tables[n := pfn[free[|order| - 1]]])
  {
    var longer, f := order + [n], pfn[free[|order| - 1]];
    assert ROOT in order;
    forall r | 1 <= r < |longer|
      ensures tables[n := f][longer[r]] == pfn[free[r - 1]]
    {
      if r < |order| {
        assert order[r] in order;
      }
    }
  }

  lemma {:induction false} PlaceInOrder(
    pfn: seq<Frame>, root: Frame, s: seq<State>, order: seq<Node>, b: Layout, n: Node)
    requires PlacedInOrder(pfn, root, s, order, b) && |Needs(order, n)| <= |FreeList(s)| + 1
    ensures PlacedInOrder(pfn, root, s, Needs(order, n), Place(pfn, b, n))
  {
    hide FreeList, FirstFree, NoneTwice, TablesInOrder;
    InTables(pfn, root, FreeList(s), order, b.tables, n);
    if n !in order {
      var free := FreeList(s);
      RequestTakesHead(b.states);
      OnceMore(order, n);
      TablesOnceMore(pfn, root, free, order, b.tables, n);
      TailOfTail(free, |order|);
    }
  }

  lemma TailOfTail<T>(s: seq<T>, k: nat)
    requires 1 <= k <= |s|
    ensures s[k - 1..][1..] == s[k..]
  {
  }

  lemma InTables(pfn: seq<Frame>, root: Frame, free: seq<nat>, order: seq<Node>, tables: map<Node, Frame>, n: Node)
    requires (forall k :: 0 <= k < |free| ==> free[k] < |pfn|) && 1 <= |order| <= |free| + 1
    requires TablesInOrder(pfn, root, free, order, tables)
    ensures n in tables <==> n in order
  {
  }

  /** The r-th structure that a run of mapping calls creates is in the r-th free frame. */
  lemma {:induction false} RunInOrder(pfn: seq<Frame>, root: Frame, s: seq<State>, run: seq<Mapping>)
    requires |s| == |pfn| && |Order(run)| <= |FreeList(s)| + 1
    ensures PlacedInOrder(pfn, root, s, Order(run), Execute(pfn, Layout(map[ROOT := root], s), Calls(run)))
  {
    hide FreeList, Place, PlacedInOrder, Needs;
    var start := Layout(map[ROOT := root], s);
    if run == [] {
      NothingPlaced(pfn, root, s);
    } else {
      var last := |run| - 1;
      var b, o, v := Execute(pfn, start, Calls(run[..last])), Order(run[..last]), run[last].page;
      var o3 := Needs(o, NodeOf(3, v));
      var o2 := Needs(o3, NodeOf(2, v));
      NeedsGrows(o, NodeOf(3, v));
      NeedsGrows(o3, NodeOf(2, v));
      NeedsGrows(o2, NodeOf(1, v));
      RunInOrder(pfn, root, s, run[..last]);
      var b3 := Place(pfn, b, NodeOf(3, v));
      PlaceInOrder(pfn, root, s, o, b, NodeOf(3, v));
      PlaceInOrder(pfn, root, s, o3, b3, NodeOf(2, v));
      PlaceInOrder(pfn, root, s, o2, Place(pfn, b3, NodeOf(2, v)), NodeOf(1, v));
      assert Calls(run)[..last] == Calls(run[..last]);
    }
  }

  lemma NothingPlaced(pfn: seq<Frame>, root: Frame, s: seq<State>)
    requires |s| == |pfn|
    ensures PlacedInOrder(pfn, root, s, [ROOT], Layout(map[ROOT := root], s))
  {
    hide FreeList;
  }

  lemma NeedsNew(order: seq<Node>, n: Node)
    requires n !in order
    ensures Needs(order, n) == order + [n]
  {
  }

  lemma NeedsPrefix(order: seq<Node>, n: Node)
    ensures order <= Needs(order, n)
  {
  }

  /** One more mapping leaves the order so far, and what its page directory pointer table adds, in place. */
  lemma {:induction false} OrderGrows(run: seq<Mapping>)
    requires run != []
    ensures var o := Order(run[..|run| - 1]);
      o <= Needs(o, NodeOf(3, run[|run| - 1].page)) <= Order(run)
  {
    hide NodeOf, Needs;
    var o, v := Order(run[..|run| - 1]), run[|run| - 1].page;
    var o3 := Needs(o, NodeOf(3, v));
    NeedsPrefix(o, NodeOf(3, v));
    NeedsPrefix(o3, NodeOf(2, v));
    NeedsPrefix(Needs(o3, NodeOf(2, v)), NodeOf(1, v));
  }

  lemma NeedsGrows(order: seq<Node>, n: Node)
    ensures |order| <= |Needs(order, n)|
    ensures forall k :: k in Needs(order, n) <==> k in order || k == n
  {
  }

  /** The PML4 is first, and everything after it is below it. */
  lemma {:induction false} OrderLevels(run: seq<Mapping>)
    ensures |Order(run)| >= 1 && Order(run)[0] == ROOT
    ensures forall n :: n in Order(run) ==> n == ROOT || 1 <= n.level <= 3
  {
    hide NodeOf, Needs;
    if run != [] {
      var o, v := Order(run[..|run| - 1]), run[|run| - 1].page;
      OrderLevels(run[..|run| - 1]);
      OrderGrows(run);
      NodeLevels(v);
      NeedsGrows(o, NodeOf(3, v));
      NeedsGrows(Needs(o, NodeOf(3, v)), NodeOf(2, v));
      NeedsGrows(Needs(Needs(o, NodeOf(3, v)), NodeOf(2, v)), NodeOf(1, v));
    }
  }

  lemma NodeLevels(v: nat)
    ensures NodeOf(3, v).level == 3 && NodeOf(2, v).level == 2 && NodeOf(1, v).level == 1
  {
  }

  /** The order lists the structures that the run needs, each once. */
  lemma {:induction false} OrderIsNodes(run: seq<Mapping>)
    ensures forall n :: n in Order(run) <==> n in Nodes(run)
    ensures |Order(run)| == |Nodes(run)|
  {
    hide Needs;
    if run != [] {
      var last := |run| - 1;
      OrderIsNodes(run[..last]);
      var v := run[last].page;
      var o := Order(run[..last]);
      var o3 := Needs(o, NodeOf(3, v));
      var o2 := Needs(o3, NodeOf(2, v));
      NeedsSize(o, Nodes(run[..last]), NodeOf(3, v));
      NeedsSize(o3, Nodes(run[..last]) + {NodeOf(3, v)}, NodeOf(2, v));
      NeedsSize(o2, Nodes(run[..last]) + {NodeOf(3, v)} + {NodeOf(2, v)}, NodeOf(1, v));
      PathUnion(Nodes(run[..last]), v);
    }
  }

  lemma NeedsSize(order: seq<Node>, have: set<Node>, n: Node)
    requires |order| == |have| && forall k :: k in order <==> k in have
    ensures |Needs(order, n)| == |have + {n}| && forall k :: k in Needs(order, n) <==> k in have + {n}
  {
    if n in order {
      assert have + {n} == have;
    }
  }
}

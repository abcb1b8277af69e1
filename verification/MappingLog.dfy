/** Runs of map_vaddr_to_paddr calls, as the sequence of page mappings they asked for. */
module MappingLog {
  import opened Words
  import opened Mmu
  import opened Counting
  import opened PageTree

  datatype Mapping = Mapping(page: Page, frame: Frame)

  /** The page map that a run leaves: later mappings of a page replace earlier ones. */
  function Replay(log: seq<Mapping>): map<nat, Frame> {
    if log == [] then map[] else Replay(log[..|log| - 1])[log[|log| - 1].page := log[|log| - 1].frame]
  }

  /** The structures below the PML4 on the way to page v. */
  function PathNodes(v: nat): set<Node> {
    {NodeOf(3, v), NodeOf(2, v), NodeOf(1, v)}
  }

  /** The structures that mapping page v has to add: none if they exist, at most three. */
  lemma MissingNodes(have: set<Node>, v: nat)
    ensures |PathNodes(v) - have|
      == (if NodeOf(3, v) in have then 0 else 1) + (if NodeOf(2, v) in have then 0 else 1)
         + if NodeOf(1, v) in have then 0 else 1
  {
    var a, b, c := {NodeOf(3, v)} - have, {NodeOf(2, v)} - have, {NodeOf(1, v)} - have;
    assert PathNodes(v) - have == a + b + c;
    assert a !! b && (a + b) !! c;
  }

  lemma PathUnion(have: set<Node>, v: nat)
    ensures have + {NodeOf(3, v)} + {NodeOf(2, v)} + {NodeOf(1, v)} == have + PathNodes(v)
  {
  }

  /** The path of a page from the PML4 down, in the terms of the indexes. */
  lemma PathOfPage(v: Page)
    ensures PathNodes(v) == {NodeOf(3, v), NodeOf(2, v), NodeOf(1, v)}
    ensures forall level :: 0 <= level ==> NodeOf(level, v).level == level
    ensures NodeOf(4, v) == ROOT && NodeOf(1, v) == Node(1, v / 512) && IndexAt(1, v) == v % 512
    ensures forall level :: 1 <= level < 4 ==>
      Parent(NodeOf(level, v)) == NodeOf(level + 1, v) && NodeOf(level, v).prefix % 512 == IndexAt(level + 1, v)
  {
    PrefixOfPage(v);
    assert Prefix(1, v) == v / 512;
  }

  /** The structures that a run needs. */
  function Nodes(log: seq<Mapping>): set<Node> {
    if log == [] then {ROOT} else Nodes(log[..|log| - 1]) + PathNodes(log[|log| - 1].page)
  }

  lemma {:induction false} LogStep(log: seq<Mapping>, e: Mapping)
    ensures Replay(log + [e]) == Replay(log)[e.page := e.frame]
    ensures Nodes(log + [e]) == Nodes(log) + PathNodes(e.page)
  {
    assert (log + [e])[..|log|] == log;
  }

  /** One more mapping adds exactly the structures that are missing on its path. */
  lemma {:induction false} NodesGrow(log: seq<Mapping>, e: Mapping)
    ensures |Nodes(log + [e])| == |Nodes(log)| + |PathNodes(e.page) - Nodes(log)|
  {
    LogStep(log, e);
    var have, path := Nodes(log), PathNodes(e.page);
    assert have + path == have + (path - have);
    assert have !! (path - have);
  }

  /** A page translates to the last frame it was mapped to, and not at all if it never was. */
  lemma {:induction false} ReplayIsLast(log: seq<Mapping>, v: nat)
    ensures v in Replay(log) <==> exists k :: 0 <= k < |log| && log[k].page == v
    ensures forall k :: 0 <= k < |log| && log[k].page == v && (forall j :: k < j < |log| ==> log[j].page != v) ==>
      Replay(log)[v] == log[k].frame
  {
    if log != [] {
      var last := |log| - 1;
      ReplayIsLast(log[..last], v);
      assert forall k :: 0 <= k < last ==> log[..last][k] == log[k];
      assert log[last].page == v ==> v in Replay(log);
    }
  }

  /** The distinct 9-bit (level 3), 18-bit (level 2) and 27-bit (level 1) prefixes that a run touches. */
  function Prefixes(log: seq<Mapping>, level: nat): set<nat> {
    set e | e in log :: Prefix(level, e.page)
  }

  ghost function LevelNodes(s: set<nat>, level: nat): set<Node> {
    set p | p in s :: Node(level, p)
  }

  lemma LevelNodesSize(s: set<nat>, level: nat)
    ensures |LevelNodes(s, level)| == |s|
  {
    if s != {} {
      var p :| p in s;
      LevelNodesSize(s - {p}, level);
      assert LevelNodes(s, level) == LevelNodes(s - {p}, level) + {Node(level, p)};
    }
  }

  lemma LevelStep(log: seq<Mapping>, level: nat)
    requires log != []
    ensures var last := |log| - 1;
      LevelNodes(Prefixes(log, level), level)
      == LevelNodes(Prefixes(log[..last], level), level) + {NodeOf(level, log[last].page)}
  {
    var last := |log| - 1;
    assert log == log[..last] + [log[last]];
    assert Prefixes(log, level) == Prefixes(log[..last], level) + {Prefix(level, log[last].page)};
  }

  lemma {:induction false} NodesAreLevels(log: seq<Mapping>)
    ensures Nodes(log)
      == {ROOT} + LevelNodes(Prefixes(log, 3), 3) + LevelNodes(Prefixes(log, 2), 2) + LevelNodes(Prefixes(log, 1), 1)
  {
    hide Prefix, Prefixes, LevelNodes, NodeOf;
    if log == [] {
      EmptyLevel(3);
      EmptyLevel(2);
      EmptyLevel(1);
    } else {
      NodesAreLevels(log[..|log| - 1]);
      LevelStep(log, 3);
      LevelStep(log, 2);
      LevelStep(log, 1);
    }
  }

  lemma EmptyLevel(level: nat)
    ensures LevelNodes(Prefixes([], level), level) == {}
  {
  }

  /** The structures of a run are one PML4 and one per distinct 9-, 18- and 27-bit prefix. */
  lemma {:induction false} NodesSize(log: seq<Mapping>)
    ensures |Nodes(log)| == 1 + |Prefixes(log, 3)| + |Prefixes(log, 2)| + |Prefixes(log, 1)|
  {
    hide Nodes, Prefixes, Prefix, LevelNodes;
    NodesAreLevels(log);
    LevelNodesSize(Prefixes(log, 3), 3);
    LevelNodesSize(Prefixes(log, 2), 2);
    LevelNodesSize(Prefixes(log, 1), 1);
    LevelsDisjoint(Prefixes(log, 3), Prefixes(log, 2), Prefixes(log, 1));
  }

  lemma LevelsDisjoint(s: set<nat>, t: set<nat>, u: set<nat>)
    ensures var a, b, c := LevelNodes(s, 3), LevelNodes(t, 2), LevelNodes(u, 1);
      |{ROOT} + a + b + c| == 1 + |a| + |b| + |c|
  {
    var a, b, c := LevelNodes(s, 3), LevelNodes(t, 2), LevelNodes(u, 1);
    assert {ROOT} !! a && ({ROOT} + a) !! b && ({ROOT} + a + b) !! c;
  }

  /** Every page is mapped to the frame of its own number, cut to 32 bits. */
  ghost predicate OwnFrames(run: seq<Mapping>) {
    forall e :: e in run ==> e.frame == e.page % 0x1_0000_0000
  }

  lemma {:induction false} ReplayOwn(run: seq<Mapping>, v: nat)
    requires OwnFrames(run)
    ensures v in Replay(run) ==> Replay(run)[v] == v % 0x1_0000_0000
  {
    if run != [] {
      var last := |run| - 1;
      assert run[last] in run;
      ReplayOwn(run[..last], v);
    }
  }
}

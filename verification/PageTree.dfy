/** The page tables as a tree over page-number prefixes, and the memory that encodes it. */
module PageTree {
  import opened Arithmetic
  import opened Words
  import opened Mmu

  /** The structure of a level (4 PML4 .. 1 page table) that serves all pages with this prefix. */
  datatype Node = Node(level: nat, prefix: nat)

  const ROOT := Node(4, 0)

  /** The frame of every structure, and the frame of every mapped page. */
  datatype Tree = Tree(tables: map<Node, Frame>, pages: map<nat, Frame>)

  function Parent(n: Node): Node { Node(n.level + 1, n.prefix / 512) }

  function NodeOf(level: nat, v: nat): Node { Node(level, Prefix(level, v)) }

  /** What entry i of structure n refers to. */
  function Child(t: Tree, n: Node, i: Index): Option<Frame>
  {
    if n.level <= 1 then Lookup(t.pages, 512 * n.prefix + i)
    else Lookup(t.tables, Node(n.level - 1, 512 * n.prefix + i))
  }

  /** A genuine tree: every structure hangs below the PML4, and no frame serves as two structures. */
  ghost predicate WellFormed(t: Tree, root: Frame) {
    ROOT in t.tables && t.tables[ROOT] == root
    && (forall n :: n in t.tables ==> 1 <= n.level <= 4 && (n.level == 4 ==> n == ROOT))
    && (forall n :: n in t.tables && n.level < 4 ==> Parent(n) in t.tables)
    && (forall v :: v in t.pages ==> Node(1, v / 512) in t.tables)
    && (forall n, k :: n in t.tables && k in t.tables && t.tables[n] == t.tables[k] ==> n == k)
  }

  /** The reserved bits are clear, and so is `ps` above the lowest level. */
  predicate Clean(w: Word, level: nat) {
    ReservedField(w) == 0 && (level >= 2 ==> !PageSize(w))
  }

  /** Entry w of a structure at this level says exactly c. */
  predicate Says(w: Word, level: nat, c: Option<Frame>) {
    Clean(w, level) && Present(w) == c.Some? && (c.Some? ==> FrameField(w) == c.value)
  }

  /** Memory m holds the structures of t. */
  ghost predicate Encodes(m: Mem, t: Tree) {
    forall n, i: Index :: n in t.tables ==> Says(EntryAt(m, t.tables[n], i), n.level, Child(t, n, i))
  }

  /** Every present entry also has `rw` set. */
  ghost predicate AllWritable(m: Mem, t: Tree) {
    forall n, i: Index :: n in t.tables && Present(EntryAt(m, t.tables[n], i)) ==> Writable(EntryAt(m, t.tables[n], i))
  }

  // ---------------------------------------------------------------- the translation is the page map

  lemma ChildOfPrefix(t: Tree, level: nat, v: nat)
    requires 1 <= level
    ensures Child(t, NodeOf(level, v), IndexAt(level, v))
            == if level == 1 then Lookup(t.pages, v) else Lookup(t.tables, NodeOf(level - 1, v))
  {
    hide Prefix;
    PrefixStep(level - 1, v);
  }

  lemma ParentOnPath(level: nat, v: nat)
    ensures NodeOf(level, v).level == level && Parent(NodeOf(level, v)) == NodeOf(level + 1, v)
    ensures NodeOf(1, v) == Node(1, v / 512)
  {
    hide Prefix;
    PrefixStep(level, v);
    PrefixStep(0, v);
  }

  lemma ParentExists(t: Tree, root: Frame, n: Node)
    requires WellFormed(t, root) && n in t.tables && n.level < 4
    ensures Parent(n) in t.tables
  {
    hide Parent;
  }

  lemma PageTableExists(t: Tree, root: Frame, v: nat)
    requires WellFormed(t, root) && v in t.pages
    ensures Node(1, v / 512) in t.tables
  {
    hide Parent;
  }

  /** A mapped page has a structure at every level. */
  lemma PathExists(t: Tree, root: Frame, level: nat, v: nat)
    requires WellFormed(t, root) && v in t.pages && 1 <= level <= 4
    ensures NodeOf(level, v) in t.tables
    decreases level
  {
    hide WellFormed, NodeOf, Parent;
    ParentOnPath(level - 1, v);
    if level > 1 {
      PathExists(t, root, level - 1, v);
      ParentExists(t, root, NodeOf(level - 1, v));
    } else {
      PageTableExists(t, root, v);
    }
  }

  /** With a structure at one level, a page has the ones above. */
  lemma PathAbove(t: Tree, root: Frame, k: nat, level: nat, v: nat)
    requires WellFormed(t, root) && 1 <= k <= level <= 4 && NodeOf(k, v) in t.tables
    ensures NodeOf(level, v) in t.tables
  {
    hide WellFormed, NodeOf, Parent;
    if k < level {
      PathAbove(t, root, k, level - 1, v);
      ParentOnPath(level - 1, v);
      ParentExists(t, root, NodeOf(level - 1, v));
    }
  }

  /** If a page's structure is missing at some level, then the page is unmapped. */
  lemma MissingBelow(t: Tree, root: Frame, level: nat, v: nat)
    requires WellFormed(t, root) && 1 <= level <= 4 && NodeOf(level, v) !in t.tables
    ensures v !in t.pages
  {
    if v in t.pages {
      PathExists(t, root, level, v);
    }
  }

  /** Memory m holds the entries of t that the translation of page v reads from this level down. */
  ghost predicate PathEncoded(m: Mem, t: Tree, level: nat, v: nat) {
    forall l :: 1 <= l <= level && NodeOf(l, v) in t.tables ==>
      Says(EntryAt(m, t.tables[NodeOf(l, v)], IndexAt(l, v)), l, Child(t, NodeOf(l, v), IndexAt(l, v)))
  }

  /** If the entries on the path of a page are right, then so is its translation. */
  lemma {:induction false} WalkOnPath(m: Mem, t: Tree, root: Frame, level: nat, v: Page)
    requires WellFormed(t, root) && PathEncoded(m, t, level, v) && 1 <= level <= 4 && NodeOf(level, v) in t.tables
    ensures WalkFrom(m, level, t.tables[NodeOf(level, v)], v) == Lookup(t.pages, v)
    ensures ReadFrom(m, level, t.tables[NodeOf(level, v)], v) <= t.tables.Values
    decreases level
  {
    hide WellFormed, NodeOf, IndexAt, Child, EntryAt;
    ChildOfPrefix(t, level, v);
    if level >= 2 {
      if NodeOf(level - 1, v) in t.tables {
        WalkOnPath(m, t, root, level - 1, v);
      } else {
        MissingBelow(t, root, level - 1, v);
      }
    }
  }

  lemma {:induction false} WalkFromNode(m: Mem, t: Tree, root: Frame, level: nat, v: Page)
    requires WellFormed(t, root) && Encodes(m, t) && 1 <= level <= 4 && NodeOf(level, v) in t.tables
    ensures WalkFrom(m, level, t.tables[NodeOf(level, v)], v) == Lookup(t.pages, v)
    ensures ReadFrom(m, level, t.tables[NodeOf(level, v)], v) <= t.tables.Values
  {
    hide WellFormed, Prefix, Says, IndexAt, Child, EntryAt, WalkFrom, ReadFrom;
    WalkOnPath(m, t, root, level, v);
  }

  /** The processor's walk from the PML4 gives exactly the frame of the mapped page, or a page fault. */
  lemma {:induction false} WalkIsLookup(m: Mem, t: Tree, root: Frame, v: Page)
    requires WellFormed(t, root) && Encodes(m, t)
    ensures Walk(m, root, v) == Lookup(t.pages, v)
    ensures ReadFrom(m, 4, root, v) <= t.tables.Values
  {
    PrefixOfPage(v);
    WalkFromNode(m, t, root, 4, v);
  }

  lemma WalksAreLookups(m: Mem, t: Tree, root: Frame)
    requires WellFormed(t, root) && Encodes(m, t)
    ensures forall v: Page :: Walk(m, root, v) == Lookup(t.pages, v)
  {
    forall v: Page
      ensures Walk(m, root, v) == Lookup(t.pages, v)
    {
      WalkIsLookup(m, t, root, v);
    }
  }

  // ---------------------------------------------------------------- the two ways the tree grows

  function AddTable(t: Tree, n: Node, f: Frame): Tree {
    t.(tables := t.tables[n := f])
  }

  /** t with structure n, in frame f if it is new. */
  function WithTable(t: Tree, n: Node, f: Frame): (u: Tree)
    ensures u.pages == t.pages && u.tables.Keys == t.tables.Keys + {n}
  {
    if n in t.tables then t else AddTable(t, n, f)
  }

  function AddPage(t: Tree, v: nat, f: Frame): Tree {
    t.(pages := t.pages[v := f])
  }

  lemma AddTableWellFormed(t: Tree, root: Frame, n: Node, f: Frame)
    requires WellFormed(t, root) && 1 <= n.level < 4 && n !in t.tables && Parent(n) in t.tables
    requires f !in t.tables.Values
    ensures WellFormed(AddTable(t, n, f), root)
  {
  }

  lemma AddPageWellFormed(t: Tree, root: Frame, v: nat, f: Frame)
    requires WellFormed(t, root) && Node(1, v / 512) in t.tables
    ensures WellFormed(AddPage(t, v, f), root)
  {
  }

  /** Rewriting entry i of structure n, with a tree that differs only in what that entry refers to. */
  lemma PutEncodes(m: Mem, t: Tree, u: Tree, root: Frame, n: Node, i: Index, w: Word)
    requires WellFormed(t, root) && Encodes(m, t) && n in t.tables && u.tables == t.tables
    requires Says(w, n.level, Child(u, n, i))
    requires forall k, j: Index :: k in t.tables && (k != n || j != i) ==> Child(u, k, j) == Child(t, k, j)
    ensures Encodes(Put(m, t.tables[n], i, w), u)
  {
    forall k, j: Index | k in u.tables
      ensures Says(EntryAt(Put(m, t.tables[n], i, w), u.tables[k], j), k.level, Child(u, k, j))
    {
      EntryAtPut(m, t.tables[n], i, w, t.tables[k], j);
    }
  }

  lemma EncodesKept(m: Mem, k: Mem, fs: set<nat>, t: Tree)
    requires Encodes(m, t) && AllWritable(m, t) && SameExcept(m, k, fs) && fs !! t.tables.Values
    ensures Encodes(k, t) && AllWritable(k, t)
  {
    forall n, i: Index | n in t.tables
      ensures EntryAt(k, t.tables[n], i) == EntryAt(m, t.tables[n], i)
    {
      SameExceptEntry(m, k, fs, t.tables[n], i);
    }
  }

  lemma SplitIndex(p: nat, i: Index, x: nat)
    ensures 512 * p + i == x <==> p == x / 512 && i == x % 512
  {
    DivMod(p, 512, i);
  }

  /** A structure that is not in the tree has nothing below it. */
  lemma NoChildren(t: Tree, root: Frame, n: Node, i: Index)
    requires WellFormed(t, root) && n !in t.tables && 1 <= n.level < 4
    ensures Child(t, n, i) == None
  {
    hide WellFormed, Parent;
    var x := 512 * n.prefix + i;
    SplitIndex(n.prefix, i, x);
    if n.level == 1 {
      if x in t.pages {
        PageTableExists(t, root, x);
      }
    } else if Node(n.level - 1, x) in t.tables {
      ParentOfChild(n, x);
      ParentExists(t, root, Node(n.level - 1, x));
    }
  }

  lemma ParentOfChild(n: Node, x: nat)
    requires 1 <= n.level && x / 512 == n.prefix
    ensures Parent(Node(n.level - 1, x)) == n
  {
  }

  lemma ChildAfterAddTable(t: Tree, n: Node, f: Frame, k: Node, j: Index)
    requires 1 <= n.level
    ensures Child(AddTable(t, n, f), k, j) == if k == Parent(n) && j == n.prefix % 512 then Some(f) else Child(t, k, j)
  {
    SplitIndex(k.prefix, j, n.prefix);
  }

  lemma ChildAfterAddPage(t: Tree, v: nat, f: Frame, k: Node, j: Index)
    requires 1 <= k.level
    ensures Child(AddPage(t, v, f), k, j) == if k == Node(1, v / 512) && j == v % 512 then Some(f) else Child(t, k, j)
  {
    SplitIndex(k.prefix, j, v);
  }

  /** Linking a zeroed frame outside the tree below its parent adds exactly one, empty, structure. */
  lemma LinkEncodes(m: Mem, t: Tree, root: Frame, n: Node, f: Frame, w: Word)
    requires WellFormed(t, root) && Encodes(m, t) && n !in t.tables && 1 <= n.level < 4 && Parent(n) in t.tables
    requires f !in t.tables.Values && Zeroed(m, f)
    requires Says(w, n.level + 1, Some(f))
    ensures Encodes(Put(m, t.tables[Parent(n)], n.prefix % 512, w), AddTable(t, n, f))
  {
    hide Child, Put, EntryAt, WellFormed, Says;
    var u, p, i := AddTable(t, n, f), Parent(n), n.prefix % 512;
    assert t.tables[p] in t.tables.Values;
    forall k, j: Index | k in u.tables
      ensures Says(EntryAt(Put(m, t.tables[p], i, w), u.tables[k], j), k.level, Child(u, k, j))
    {
      EntryAtPut(m, t.tables[p], i, w, u.tables[k], j);
      ChildAfterAddTable(t, n, f, k, j);
      if k == n {
        NoChildren(t, root, n, j);
        ZeroSaysNone(n.level);
      } else if t.tables[k] == t.tables[p] {
        OneStructure(t, root, k, p);
      }
    }
  }

  lemma ZeroSaysNone(level: nat)
    ensures Says(0, level, None)
  {
  }

  /** No frame serves as two structures. */
  lemma OneStructure(t: Tree, root: Frame, n: Node, k: Node)
    requires WellFormed(t, root) && n in t.tables && k in t.tables && t.tables[n] == t.tables[k]
    ensures n == k
  {
    hide Parent;
  }

  /** Mapping one page changes what one entry of one page table refers to. */
  lemma PageEncodes(m: Mem, t: Tree, root: Frame, v: nat, f: Frame, w: Word)
    requires WellFormed(t, root) && Encodes(m, t) && Node(1, v / 512) in t.tables
    requires Says(w, 1, Some(f))
    ensures Encodes(Put(m, t.tables[Node(1, v / 512)], v % 512, w), AddPage(t, v, f))
  {
    hide Child, Put, EntryAt;
    var u, n := AddPage(t, v, f), Node(1, v / 512);
    ChildAfterAddPage(t, v, f, n, v % 512);
    forall k, j: Index | k in t.tables && (k != n || j != v % 512)
      ensures Child(u, k, j) == Child(t, k, j)
    {
      ChildAfterAddPage(t, v, f, k, j);
    }
    PutEncodes(m, t, u, root, n, v % 512, w);
  }

  lemma PutWritable(m: Mem, t: Tree, f: Frame, i: Index, w: Word)
    requires AllWritable(m, t) && Writable(w)
    ensures AllWritable(Put(m, f, i, w), t)
  {
    forall k, j: Index | k in t.tables
      ensures Present(EntryAt(Put(m, f, i, w), t.tables[k], j)) ==> Writable(EntryAt(Put(m, f, i, w), t.tables[k], j))
    {
      EntryAtPut(m, f, i, w, t.tables[k], j);
    }
  }

  /** What a clean entry says after each of the three bit-field assignments. */
  lemma EntryStages(e: Word, level: nat, a: nat)
    requires Clean(e, level)
    ensures var w := WriteAddr(e, a); var x := WritePresent(w); var y := LinkWord(e, a); var f := a % 0x1_0000_0000;
      Says(w, level, if Present(e) then Some(f) else None) && Says(x, level, Some(f)) && Says(y, level, Some(f))
        && Writable(y)
  {
    hide WriteAddr, WritePresent, WriteRw, AddrField, ReservedField, FrameField, Present, PageSize, Writable;
    var w := WriteAddr(e, a);
    var x := WritePresent(w);
    WriteAddrFields(e, a);
    WritePresentFields(w);
    WriteRwFields(x);
    FrameFieldSplit(w);
    FrameFieldSplit(x);
    FrameFieldSplit(WriteRw(x));
  }
}

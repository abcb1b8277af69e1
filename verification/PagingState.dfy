/** What every step of the page-table builder keeps: memory, tree and allocator taken together. */
module PagingState {
  import opened Words
  import opened Mmu
  import opened FrameStates
  import opened PageTree

  /** The fixed surroundings: the PML4's frame, the managed frames in array order, the frames of the
      allocator's array, and the bound that the read-back of a table address needs (met by the free frames
      among the lowest `low` indices). */
  datatype Config = Config(root: Frame, pfn: seq<Frame>, arrFrames: set<nat>, limit: nat, low: nat)

  ghost predicate GoodConfig(c: Config) {
    (forall i, j :: 0 <= i < j < |c.pfn| ==> c.pfn[i] != c.pfn[j])
    && c.root in c.pfn && c.root !in c.arrFrames
    && (forall f :: f in c.arrFrames ==> f in c.pfn)
    && c.limit <= 0x1_0000_0000 && c.low <= |c.pfn|
  }

  /** Frame f is managed and locked. */
  ghost predicate Held(c: Config, s: seq<State>, f: Frame) {
    exists i :: 0 <= i < |s| && i < |c.pfn| && s[i] == LOCKED && c.pfn[i] == f
  }

  /** Frame f is managed and free. */
  ghost predicate Grantable(c: Config, s: seq<State>, f: Frame) {
    exists i :: 0 <= i < |s| && i < |c.pfn| && s[i] == FREE && c.pfn[i] == f
  }

  /** The kernel reads or writes frame f at its own address, now or once it has requested it: f holds a structure
      or a part of the frame array, or is free. */
  ghost predicate InUse(c: Config, t: Tree, s: seq<State>, f: Frame) {
    f in t.tables.Values || f in c.arrFrames || Grantable(c, s, f)
  }

  /** A request in state s hands out the lowest free frame f and leaves state r. */
  ghost predicate GrantsLowest(c: Config, s: seq<State>, f: Frame, r: seq<State>) {
    |s| == |c.pfn| && FirstFree(s) < |s| && f == c.pfn[FirstFree(s)] && r == Step(s, Request)
  }

  /** Whatever is in use after a step was in use before it. */
  ghost predicate NoMoreInUse(c: Config, t: Tree, s: seq<State>, u: Tree, r: seq<State>) {
    forall f: Frame :: InUse(c, u, r, f) ==> InUse(c, t, s, f)
  }

  /** Page f is mapped to frame f. */
  predicate SelfPage(t: Tree, f: Frame) {
    f < 0x10_0000_0000 && f in t.pages && t.pages[f] == f
  }

  /** Frame f may be written without touching a structure, the frame array or a free frame. */
  ghost predicate Spare(c: Config, t: Tree, cr3: Option<Frame>, s: seq<State>, f: Frame) {
    f !in t.tables.Values && f !in c.arrFrames && f < c.limit && Held(c, s, f) && (cr3.Some? ==> SelfPage(t, f))
  }

  /** The allocator's side: structures are locked frames, and no free frame is in use. */
  ghost predicate Owned(c: Config, t: Tree, s: seq<State>) {
    |s| == |c.pfn|
    && (forall i :: 0 <= i < |s| && s[i] == FREE ==> c.pfn[i] !in t.tables.Values && c.pfn[i] !in c.arrFrames)
    && (forall n :: n in t.tables && n != ROOT ==> Held(c, s, t.tables[n]) && t.tables[n] < c.limit)
    && t.tables.Values !! c.arrFrames
    && (forall i :: 0 <= i < c.low && c.low <= |s| && s[i] == FREE ==> c.pfn[i] < c.limit)
  }

  /** Once CR3 holds the PML4, every frame in use is mapped to itself. */
  ghost predicate SelfMapped(c: Config, t: Tree, cr3: Option<Frame>, s: seq<State>) {
    cr3.Some? ==> cr3.value == c.root && forall f: Frame :: InUse(c, t, s, f) ==> SelfPage(t, f)
  }

  ghost predicate Sound(c: Config, m: Mem, t: Tree, cr3: Option<Frame>, s: seq<State>) {
    GoodConfig(c) && WellFormed(t, c.root) && Encodes(m, t) && AllWritable(m, t) && Owned(c, t, s)
      && SelfMapped(c, t, cr3, s)
  }

  // ---------------------------------------------------------------- reachability of the frames in use

  lemma {:induction false} SelfPageMaps(c: Config, m: Mem, t: Tree, cr3: Option<Frame>, f: Frame)
    requires WellFormed(t, c.root) && Encodes(m, t) && (cr3.Some? ==> cr3.value == c.root && SelfPage(t, f))
    ensures Maps(m, cr3, f)
    ensures cr3.Some? ==> ReadFrom(m, 4, cr3.value, f) <= t.tables.Values
  {
    if cr3.Some? {
      WalkIsLookup(m, t, c.root, f);
    }
  }

  lemma TableManaged(c: Config, t: Tree, s: seq<State>, n: Node)
    requires GoodConfig(c) && WellFormed(t, c.root) && Owned(c, t, s) && n in t.tables
    ensures t.tables[n] in c.pfn && t.tables[n] in t.tables.Values
  {
    if n != ROOT {
      assert Held(c, s, t.tables[n]);
    }
  }

  lemma InUseManaged(c: Config, t: Tree, s: seq<State>, f: Frame)
    requires GoodConfig(c) && WellFormed(t, c.root) && Owned(c, t, s) && InUse(c, t, s, f)
    ensures f in c.pfn
  {
    if f in t.tables.Values {
      var n :| n in t.tables && t.tables[n] == f;
      TableManaged(c, t, s, n);
    }
  }

  lemma TableMaps(c: Config, m: Mem, t: Tree, cr3: Option<Frame>, s: seq<State>, n: Node)
    requires Sound(c, m, t, cr3, s) && n in t.tables
    ensures Maps(m, cr3, t.tables[n])
  {
    assert InUse(c, t, s, t.tables[n]);
    SelfPageMaps(c, m, t, cr3, t.tables[n]);
  }

  lemma SpareDirect(c: Config, m: Mem, t: Tree, cr3: Option<Frame>, s: seq<State>, f: Frame)
    requires Sound(c, m, t, cr3, s) && Spare(c, t, cr3, s, f)
    ensures Direct(m, cr3, {f})
  {
    SelfPageMaps(c, m, t, cr3, f);
  }

  lemma ArrayDirect(c: Config, m: Mem, t: Tree, cr3: Option<Frame>, s: seq<State>)
    requires Sound(c, m, t, cr3, s)
    ensures Direct(m, cr3, c.arrFrames)
  {
    forall f: Frame | f in c.arrFrames
      ensures Maps(m, cr3, f) && (cr3.Some? ==> ReadFrom(m, 4, cr3.value, f) !! c.arrFrames)
    {
      assert InUse(c, t, s, f);
      SelfPageMaps(c, m, t, cr3, f);
    }
  }

  // ---------------------------------------------------------------- the steps

  /** Stores outside the structures keep everything. */
  lemma SoundKept(c: Config, m: Mem, k: Mem, fs: set<nat>, t: Tree, cr3: Option<Frame>, s: seq<State>)
    requires Sound(c, m, t, cr3, s) && SameExcept(m, k, fs) && fs !! t.tables.Values
    ensures Sound(c, k, t, cr3, s)
  {
    EncodesKept(m, k, fs, t);
  }

  /** Locking a free frame keeps the allocator's side, and the frame is spare. */
  lemma LockGivesSpare(c: Config, t: Tree, cr3: Option<Frame>, s: seq<State>, i: nat)
    requires GoodConfig(c) && Owned(c, t, s) && SelfMapped(c, t, cr3, s)
    requires i < |s| && s[i] == FREE && c.pfn[i] < c.limit
    ensures var r, f := s[i := LOCKED], c.pfn[i];
      Owned(c, t, r) && SelfMapped(c, t, cr3, r) && Spare(c, t, cr3, r, f) && Grantable(c, s, f)
        && NoMoreInUse(c, t, s, t, r)
  {
    assert s[i := LOCKED][i] == LOCKED;
    TakeKeeps(c, t, cr3, s, i, LOCKED);
    TakeShrinks(c, t, s, i, LOCKED);
    assert InUse(c, t, s, c.pfn[i]);
  }

  lemma TakeShrinks(c: Config, t: Tree, s: seq<State>, i: nat, y: State)
    requires i < |s| && y != FREE
    ensures NoMoreInUse(c, t, s, t, s[i := y])
  {
    forall f: Frame | Grantable(c, s[i := y], f)
      ensures Grantable(c, s, f)
    {
      var j :| 0 <= j < |s| && j < |c.pfn| && s[i := y][j] == FREE && c.pfn[j] == f;
      assert s[j] == FREE;
    }
  }

  /** A request hands out a spare frame. */
  lemma {:induction false} RequestGivesSpare(c: Config, t: Tree, cr3: Option<Frame>, s: seq<State>)
    requires GoodConfig(c) && Owned(c, t, s) && SelfMapped(c, t, cr3, s) && 0 < Count(s[..c.low], FREE)
    ensures FirstFree(s) < |s|
    ensures var r, f := Step(s, Request), c.pfn[FirstFree(s)];
      Owned(c, t, r) && SelfMapped(c, t, cr3, r) && Spare(c, t, cr3, r, f) && Grantable(c, s, f)
        && NoMoreInUse(c, t, s, t, r)
      && Count(r[..c.low], FREE) == Count(s[..c.low], FREE) - 1
  {
    FirstFreeInPrefix(s, c.low);
    CountPrefixUpdate(s, c.low, FirstFree(s), LOCKED, FREE);
    hide Count, Spare, SelfMapped, NoMoreInUse, Grantable;
    LockGivesSpare(c, t, cr3, s, FirstFree(s));
  }

  /** pmem_request_frame, whose stores stay inside the frame array. */
  lemma {:induction false} SoundRequest(c: Config, m: Mem, k: Mem, t: Tree, cr3: Option<Frame>, s: seq<State>)
    requires Sound(c, m, t, cr3, s) && 0 < Count(s[..c.low], FREE) && SameExcept(m, k, c.arrFrames)
    ensures |s| == |c.pfn| && FirstFree(s) < |s|
    ensures var r, f := Step(s, Request), c.pfn[FirstFree(s)];
      Sound(c, k, t, cr3, r) && Spare(c, t, cr3, r, f) && Grantable(c, s, f) && NoMoreInUse(c, t, s, t, r)
      && Count(r[..c.low], FREE) == Count(s[..c.low], FREE) - 1
  {
    hide Count, Step, Encodes, SameExcept, Held, AllWritable, WellFormed, NoMoreInUse, Grantable, Spare, SelfMapped;
    RequestGivesSpare(c, t, cr3, s);
    SoundKept(c, m, k, c.arrFrames, t, cr3, s);
  }

  lemma SameInUse(c: Config, t: Tree, s: seq<State>)
    ensures NoMoreInUse(c, t, s, t, s)
  {
  }

  lemma InUseTrans(c: Config, t: Tree, s: seq<State>, u: Tree, r: seq<State>, v: Tree, q: seq<State>)
    requires NoMoreInUse(c, t, s, u, r) && NoMoreInUse(c, u, r, v, q)
    ensures NoMoreInUse(c, t, s, v, q)
  {
    hide InUse;
  }

  /** A new structure was a free frame before. */
  lemma NewTableInUse(c: Config, t: Tree, s: seq<State>, r: seq<State>, n: Node, f: Frame)
    requires NoMoreInUse(c, t, s, t, r) && Grantable(c, s, f) && n !in t.tables
    ensures NoMoreInUse(c, t, s, AddTable(t, n, f), r)
  {
    hide Grantable;
    TablesAfterAdd(t, n, f);
    forall g: Frame | InUse(c, AddTable(t, n, f), r, g)
      ensures InUse(c, t, s, g)
    {
      assert g != f ==> InUse(c, t, r, g);
    }
  }

  /** Zeroing a spare frame. */
  lemma SoundZero(c: Config, m: Mem, k: Mem, t: Tree, cr3: Option<Frame>, s: seq<State>, f: Frame)
    requires Sound(c, m, t, cr3, s) && Spare(c, t, cr3, s, f) && SameExcept(m, k, {f})
    ensures Sound(c, k, t, cr3, s) && Direct(k, cr3, c.arrFrames) && {f} !! c.arrFrames
  {
    SoundKept(c, m, k, {f}, t, cr3, s);
    ArrayDirect(c, k, t, cr3, s);
  }

  lemma TablesAfterAdd(t: Tree, n: Node, f: Frame)
    requires n !in t.tables
    ensures AddTable(t, n, f).tables.Values == t.tables.Values + {f}
  {
    var u := AddTable(t, n, f);
    assert forall k :: k in t.tables ==> u.tables[k] == t.tables[k];
    assert u.tables[n] == f;
  }

  lemma SelfMappedAddTable(c: Config, t: Tree, cr3: Option<Frame>, s: seq<State>, n: Node, f: Frame)
    requires SelfMapped(c, t, cr3, s) && n !in t.tables && (cr3.Some? ==> SelfPage(t, f))
    ensures SelfMapped(c, AddTable(t, n, f), cr3, s)
  {
    TablesAfterAdd(t, n, f);
    forall g: Frame | InUse(c, AddTable(t, n, f), s, g)
      ensures g == f || InUse(c, t, s, g)
    {
    }
  }

  lemma OwnedAddTable(c: Config, t: Tree, cr3: Option<Frame>, s: seq<State>, n: Node, f: Frame)
    requires GoodConfig(c) && Owned(c, t, s) && n !in t.tables && Spare(c, t, cr3, s, f)
    ensures Owned(c, AddTable(t, n, f), s)
  {
    var j :| 0 <= j < |s| && s[j] == LOCKED && c.pfn[j] == f;
    TablesAfterAdd(t, n, f);
    forall i | 0 <= i < |s| && s[i] == FREE
      ensures c.pfn[i] != f
    {
      assert i != j;
    }
  }

  lemma WritableAddTable(m: Mem, t: Tree, n: Node, f: Frame, p: Frame, i: Index, w: Word)
    requires AllWritable(m, t) && Zeroed(m, f) && p != f && Writable(w)
    ensures AllWritable(Put(m, p, i, w), AddTable(t, n, f))
  {
    hide Put, EntryAt;
    PutWritable(m, t, p, i, w);
    forall j: Index
      ensures EntryAt(Put(m, p, i, w), f, j) == 0
    {
      EntryAtPut(m, p, i, w, f, j);
    }
  }

  /** An entry that still says what it said leaves its structure reachable. */
  lemma UnchangedEntryMaps(c: Config, m: Mem, t: Tree, cr3: Option<Frame>, s: seq<State>, q: Node, i: Index, x: Word)
    requires Sound(c, m, t, cr3, s) && q in t.tables && Says(x, q.level, Child(t, q, i))
    ensures Maps(Put(m, t.tables[q], i, x), cr3, t.tables[q])
  {
    hide Says, Child, Put, Encodes;
    assert InUse(c, t, s, t.tables[q]);
    PutEncodes(m, t, t, c.root, q, i, x);
    SelfPageMaps(c, Put(m, t.tables[q], i, x), t, cr3, t.tables[q]);
  }

  /** A present entry for a zeroed spare frame gives a sound state with one more structure. */
  lemma LinkedEntry(c: Config, m: Mem, t: Tree, cr3: Option<Frame>, s: seq<State>, n: Node, f: Frame, x: Word)
    requires Sound(c, m, t, cr3, s) && Spare(c, t, cr3, s, f) && Zeroed(m, f)
    requires n !in t.tables && 1 <= n.level < 4 && Parent(n) in t.tables && Says(x, n.level + 1, Some(f))
    ensures var p, k := t.tables[Parent(n)], Put(m, t.tables[Parent(n)], n.prefix % 512, x);
      Maps(k, cr3, p) && (Writable(x) ==> Sound(c, k, AddTable(t, n, f), cr3, s))
  {
    hide Says, Put, Encodes, AllWritable, Owned, Held, Zeroed, EntryAt;
    var p, i := t.tables[Parent(n)], n.prefix % 512;
    var k, u := Put(m, p, i, x), AddTable(t, n, f);
    AddTableWellFormed(t, c.root, n, f);
    LinkEncodes(m, t, c.root, n, f, x);
    assert InUse(c, t, s, p);
    SelfPageMaps(c, k, u, cr3, p);
    OwnedAddTable(c, t, cr3, s, n, f);
    SelfMappedAddTable(c, t, cr3, s, n, f);
    if Writable(x) {
      WritableAddTable(m, t, n, f, p, i, x);
    }
  }

  /** What the parent's entry says after each of the three assignments. */
  lemma LinkWords(c: Config, m: Mem, t: Tree, cr3: Option<Frame>, s: seq<State>, n: Node, f: Frame)
    requires Sound(c, m, t, cr3, s) && Spare(c, t, cr3, s, f) && n !in t.tables && 1 <= n.level && Parent(n) in t.tables
    ensures var p, i := Parent(n), n.prefix % 512; var e := EntryAt(m, t.tables[p], i); var w := WriteAddr(e, f);
      Says(w, p.level, Child(t, p, i)) && Says(WritePresent(w), n.level + 1, Some(f))
      && Says(LinkWord(e, f), n.level + 1, Some(f)) && Writable(LinkWord(e, f))
  {
    hide WriteAddr, WritePresent, WriteRw, AddrField, ReservedField, FrameField, Present, PageSize, Writable,
         EntryAt, Encodes, WellFormed, AllWritable, Owned, Held, SelfMapped, Child;
    var e := EntryAt(m, t.tables[Parent(n)], n.prefix % 512);
    assert f % 0x1_0000_0000 == f;
    EntryOfChild(m, t, n);
    EntryStages(e, n.level + 1, f);
  }

  /** Linking a zeroed spare frame: the parent stays reachable between the three assignments, and the
      result is sound for the tree with one more structure. */
  lemma LinkStages(c: Config, m: Mem, t: Tree, cr3: Option<Frame>, s: seq<State>, n: Node, f: Frame)
    requires Sound(c, m, t, cr3, s) && Spare(c, t, cr3, s, f) && Zeroed(m, f)
    requires n !in t.tables && 1 <= n.level < 4 && Parent(n) in t.tables
    ensures var p, i := t.tables[Parent(n)], n.prefix % 512; var e := EntryAt(m, p, i); var w := WriteAddr(e, f);
      Maps(Put(m, p, i, w), cr3, p) && Maps(Put(m, p, i, WritePresent(w)), cr3, p)
      && Sound(c, Put(m, p, i, LinkWord(e, f)), AddTable(t, n, f), cr3, s)
  {
    hide *;
    var e := EntryAt(m, t.tables[Parent(n)], n.prefix % 512);
    LinkWords(c, m, t, cr3, s, n, f);
    UnchangedEntryMaps(c, m, t, cr3, s, Parent(n), n.prefix % 512, WriteAddr(e, f));
    LinkedEntry(c, m, t, cr3, s, n, f, WritePresent(WriteAddr(e, f)));
    LinkedEntry(c, m, t, cr3, s, n, f, LinkWord(e, f));
  }

  lemma EntryIsPage(m: Mem, t: Tree, v: nat)
    requires Encodes(m, t) && Node(1, v / 512) in t.tables
    ensures Says(EntryAt(m, t.tables[Node(1, v / 512)], v % 512), 1, Lookup(t.pages, v))
    ensures Child(t, Node(1, v / 512), v % 512) == Lookup(t.pages, v)
  {
    SplitIndex(v / 512, v % 512, v);
    assert Child(t, Node(1, v / 512), v % 512) == Lookup(t.pages, v);
  }

  /** A present entry for page v: allowed after the CR3 load unless v is a frame in use that would move. */
  lemma PageEntry(c: Config, m: Mem, t: Tree, cr3: Option<Frame>, s: seq<State>, v: Page, f: Frame, x: Word)
    requires Sound(c, m, t, cr3, s) && Node(1, v / 512) in t.tables && Says(x, 1, Some(f))
    requires cr3.Some? && InUse(c, t, s, v) ==> f == v
    ensures var p, k := t.tables[Node(1, v / 512)], Put(m, t.tables[Node(1, v / 512)], v % 512, x);
      Maps(k, cr3, p) && (Writable(x) ==> Sound(c, k, AddPage(t, v, f), cr3, s))
  {
    hide Says, Put, Encodes, AllWritable, Owned, Maps, GoodConfig, Grantable, WellFormed;
    var q, i := Node(1, v / 512), v % 512;
    var p := t.tables[q];
    var k, u := Put(m, p, i, x), AddPage(t, v, f);
    AddPageWellFormed(t, c.root, v, f);
    PageEncodes(m, t, c.root, v, f, x);
    assert InUse(c, t, s, p);
    SelfPageMaps(c, k, u, cr3, p);
    OwnedSameTables(c, t, u, s);
    SelfMappedAddPage(c, t, cr3, s, v, f);
    if Writable(x) {
      PutWritable(m, t, p, i, x);
      SameTablesWritable(k, t, u);
    }
  }

  lemma SelfMappedAddPage(c: Config, t: Tree, cr3: Option<Frame>, s: seq<State>, v: Page, f: Frame)
    requires SelfMapped(c, t, cr3, s) && (cr3.Some? && InUse(c, t, s, v) ==> f == v)
    ensures SelfMapped(c, AddPage(t, v, f), cr3, s)
  {
    hide Grantable;
    forall g: Frame | InUse(c, AddPage(t, v, f), s, g)
      ensures InUse(c, t, s, g)
    {
    }
  }

  lemma OwnedSameTables(c: Config, t: Tree, u: Tree, s: seq<State>)
    requires Owned(c, t, s) && u.tables == t.tables
    ensures Owned(c, u, s) && forall f: Frame :: InUse(c, u, s, f) == InUse(c, t, s, f)
  {
  }

  lemma SameTablesWritable(m: Mem, t: Tree, u: Tree)
    requires AllWritable(m, t) && u.tables == t.tables
    ensures AllWritable(m, u)
  {
  }

  /** Mapping page v: its page table stays reachable between the three assignments, and the result is
      sound for the tree with that page mapped. */
  lemma PageStages(c: Config, m: Mem, t: Tree, cr3: Option<Frame>, s: seq<State>, v: Page, a: nat)
    requires Sound(c, m, t, cr3, s) && Node(1, v / 512) in t.tables
    requires cr3.Some? && InUse(c, t, s, v) ==> a % 0x1_0000_0000 == v
    ensures var p, i := t.tables[Node(1, v / 512)], v % 512; var e := EntryAt(m, p, i); var w := WriteAddr(e, a);
      Maps(Put(m, p, i, w), cr3, p) && Maps(Put(m, p, i, WritePresent(w)), cr3, p)
      && Sound(c, Put(m, p, i, LinkWord(e, a)), AddPage(t, v, a % 0x1_0000_0000), cr3, s)
  {
    var q, i, f := Node(1, v / 512), v % 512, a % 0x1_0000_0000;
    var e := EntryAt(m, t.tables[q], i);
    var w := WriteAddr(e, a);
    EntryIsPage(m, t, v);
    EntryStages(e, 1, a);
    if Present(e) {
      hide *;
      PageEntry(c, m, t, cr3, s, v, f, w);
      PageEntry(c, m, t, cr3, s, v, f, WritePresent(w));
      PageEntry(c, m, t, cr3, s, v, f, LinkWord(e, a));
    } else {
      hide *;
      UnchangedEntryMaps(c, m, t, cr3, s, q, i, w);
      PageEntry(c, m, t, cr3, s, v, f, WritePresent(w));
      PageEntry(c, m, t, cr3, s, v, f, LinkWord(e, a));
    }
  }

  /** A store into a structure leaves the frame array as it was, and reachable. */
  lemma TableStore(c: Config, m: Mem, t: Tree, u: Tree, cr3: Option<Frame>, s: seq<State>, n: Node, i: Index, w: Word)
    requires Sound(c, m, t, cr3, s) && n in t.tables && Sound(c, Put(m, t.tables[n], i, w), u, cr3, s)
    ensures SameExcept(m, Put(m, t.tables[n], i, w), {t.tables[n]}) && {t.tables[n]} !! c.arrFrames
    ensures Direct(Put(m, t.tables[n], i, w), cr3, c.arrFrames)
  {
    hide Put, Encodes;
    PutSameExcept(m, t.tables[n], i, w);
    TableManaged(c, t, s, n);
    ArrayDirect(c, Put(m, t.tables[n], i, w), u, cr3, s);
  }

  // ---------------------------------------------------------------- allocator calls by other code

  /** Other code frees or unreserves only frames that hold no structure and no part of the frame array, and that the
      builder could use as structures: below the limit if it may come to them, and mapped to themselves. */
  ghost predicate Permitted(c: Config, t: Tree, cr3: Option<Frame>, call: Call) {
    Legal(call, |c.pfn|)
    && (call.Free? || call.Unreserve? ==>
          var f := c.pfn[call.index];
          f !in t.tables.Values && f !in c.arrFrames && (call.index < c.low ==> f < c.limit)
          && (cr3.Some? ==> SelfPage(t, f)))
  }

  /** Taking a free frame out of circulation keeps the allocator's side. */
  lemma TakeKeeps(c: Config, t: Tree, cr3: Option<Frame>, s: seq<State>, i: nat, y: State)
    requires GoodConfig(c) && Owned(c, t, s) && SelfMapped(c, t, cr3, s) && i < |s| && s[i] == FREE && y != FREE
    ensures Owned(c, t, s[i := y]) && SelfMapped(c, t, cr3, s[i := y])
  {
    KeepsHeld(c, t, s, i, y);
    TakeShrinks(c, t, s, i, y);
  }

  /** Putting an unused frame into circulation keeps it. */
  lemma GiveKeeps(c: Config, t: Tree, cr3: Option<Frame>, s: seq<State>, i: nat, call: Call)
    requires GoodConfig(c) && Owned(c, t, s) && SelfMapped(c, t, cr3, s) && i < |s|
    requires Permitted(c, t, cr3, call) && (call == Free(i) || call == Unreserve(i))
    ensures Owned(c, t, s[i := FREE]) && SelfMapped(c, t, cr3, s[i := FREE])
  {
    KeepsHeld(c, t, s, i, FREE);
    forall f: Frame | Grantable(c, s[i := FREE], f)
      ensures f == c.pfn[i] || Grantable(c, s, f)
    {
      var j :| 0 <= j < |s| && s[i := FREE][j] == FREE && c.pfn[j] == f;
      assert j != i ==> s[j] == FREE;
    }
  }

  /** A frame that is not a structure may change its state. */
  lemma KeepsHeld(c: Config, t: Tree, s: seq<State>, i: nat, y: State)
    requires Owned(c, t, s) && i < |s| && (s[i] == FREE || c.pfn[i] !in t.tables.Values)
    ensures forall n :: n in t.tables && n != ROOT ==> Held(c, s[i := y], t.tables[n])
  {
    forall n | n in t.tables && n != ROOT
      ensures Held(c, s[i := y], t.tables[n])
    {
      var j :| 0 <= j < |s| && s[j] == LOCKED && c.pfn[j] == t.tables[n];
      assert s[i := y][j] == LOCKED;
    }
  }

  lemma CallKeeps(c: Config, t: Tree, cr3: Option<Frame>, s: seq<State>, call: Call)
    requires GoodConfig(c) && Owned(c, t, s) && SelfMapped(c, t, cr3, s) && Permitted(c, t, cr3, call)
    ensures Owned(c, t, Step(s, call)) && SelfMapped(c, t, cr3, Step(s, call))
  {
    hide SelfMapped, GoodConfig;
    match call
    case Request =>
      if FirstFree(s) < |s| {
        TakeKeeps(c, t, cr3, s, FirstFree(s), LOCKED);
      }
    case Lock(i) =>
      if s[i] == FREE {
        TakeKeeps(c, t, cr3, s, i, LOCKED);
      }
    case Reserve(i) =>
      if s[i] == FREE {
        TakeKeeps(c, t, cr3, s, i, RESERVED);
      }
    case Free(i) =>
      if s[i] == LOCKED {
        GiveKeeps(c, t, cr3, s, i, call);
      }
    case Unreserve(i) =>
      if s[i] == RESERVED {
        GiveKeeps(c, t, cr3, s, i, call);
      }
  }

  lemma {:induction false} RunKeeps(c: Config, t: Tree, cr3: Option<Frame>, s: seq<State>, calls: seq<Call>)
    requires GoodConfig(c) && Owned(c, t, s) && SelfMapped(c, t, cr3, s)
    requires forall call :: call in calls ==> Legal(call, |s|) && Permitted(c, t, cr3, call)
    ensures Owned(c, t, Run(s, calls)) && SelfMapped(c, t, cr3, Run(s, calls))
  {
    hide SelfMapped, GoodConfig;
    if calls != [] {
      RunKeeps(c, t, cr3, s, calls[..|calls| - 1]);
      assert calls[|calls| - 1] in calls;
      CallKeeps(c, t, cr3, Run(s, calls[..|calls| - 1]), calls[|calls| - 1]);
    }
  }

  /** The page tables survive any run of allocator calls by other code: those store only into the frame array, and
      leave the joint invariant intact. */
  lemma {:induction false} SoundCalls(
    c: Config, m: Mem, k: Mem, t: Tree, cr3: Option<Frame>, s: seq<State>, calls: seq<Call>)
    requires Sound(c, m, t, cr3, s) && SameExcept(m, k, c.arrFrames)
    requires forall call :: call in calls ==> Legal(call, |s|) && Permitted(c, t, cr3, call)
    ensures |s| == |c.pfn| && Sound(c, k, t, cr3, Run(s, calls))
  {
    hide Run, SelfMapped, SameExcept, Encodes, AllWritable, WellFormed, GoodConfig;
    RunKeeps(c, t, cr3, s, calls);
    SoundKept(c, m, k, c.arrFrames, t, cr3, s);
  }

  /** One such call, for every memory that it may leave. */
  lemma SoundOneCall(c: Config, m: Mem, t: Tree, cr3: Option<Frame>, s: seq<State>, call: Call)
    requires Sound(c, m, t, cr3, s) && Permitted(c, t, cr3, call)
    ensures Legal(call, |s|) && |s| == |c.pfn|
    ensures forall k: Mem :: SameExcept(m, k, c.arrFrames) ==> Sound(c, k, t, cr3, Step(s, call))
  {
    hide SameExcept, Step, Run;
    OneCall(s, call);
    forall k: Mem | SameExcept(m, k, c.arrFrames)
      ensures Sound(c, k, t, cr3, Step(s, call))
    {
      hide Sound, Permitted;
      SoundCalls(c, m, k, t, cr3, s, [call]);
    }
  }

  lemma {:induction false} OneCall(s: seq<State>, call: Call)
    requires Legal(call, |s|)
    ensures Run(s, [call]) == Step(s, call)
  {
    hide Step;
    assert [call][..0] == [];
    assert Run(s, []) == s;
  }

  /** What the entry on the way to structure n says. */
  lemma EntryOnPath(c: Config, m: Mem, t: Tree, cr3: Option<Frame>, s: seq<State>, n: Node)
    requires Sound(c, m, t, cr3, s) && 1 <= n.level < 4 && Parent(n) in t.tables
    ensures var e := EntryAt(m, t.tables[Parent(n)], n.prefix % 512);
      Says(e, n.level + 1, Lookup(t.tables, n)) && (n in t.tables ==> t.tables[n] < c.limit)
  {
    EntryOfChild(m, t, n);
    hide EntryAt, Says, Held, AllWritable, SelfMapped, WellFormed, GoodConfig, Encodes;
    assert n in t.tables ==> t.tables[n] < c.limit;
  }

  lemma EntryOfChild(m: Mem, t: Tree, n: Node)
    requires Encodes(m, t) && 1 <= n.level && Parent(n) in t.tables
    ensures Says(EntryAt(m, t.tables[Parent(n)], n.prefix % 512), n.level + 1, Lookup(t.tables, n))
    ensures Child(t, Parent(n), n.prefix % 512) == Lookup(t.tables, n)
  {
    hide Says, EntryAt;
    SplitIndex(n.prefix / 512, n.prefix % 512, n.prefix);
    assert Child(t, Parent(n), n.prefix % 512) == Lookup(t.tables, n);
  }

  /** Loading CR3 once the managed frames are identity mapped. */
  lemma SoundCr3(c: Config, m: Mem, t: Tree, s: seq<State>)
    requires Sound(c, m, t, None, s)
    requires forall f :: f in c.pfn ==> SelfPage(t, f)
    ensures Sound(c, m, t, Some(c.root), s) && Direct(m, Some(c.root), c.arrFrames)
  {
    forall f: Frame | InUse(c, t, s, f)
      ensures f in c.pfn
    {
      InUseManaged(c, t, s, f);
    }
    hide Encodes, AllWritable, Owned, WellFormed, GoodConfig, Direct;
    ArrayDirect(c, m, t, Some(c.root), s);
  }

  /** With the managed frames identity mapped, every structure reachable from the PML4 is itself reached at
      its own address: those made while the mapping was under way as well. */
  lemma StructuresSelfMapped(c: Config, m: Mem, t: Tree, cr3: Option<Frame>, s: seq<State>, n: Node)
    requires Sound(c, m, t, cr3, s) && n in t.tables
    requires forall f :: f in c.pfn ==> SelfPage(t, f)
    ensures t.tables[n] < 0x10_0000_0000 && Walk(m, c.root, t.tables[n]) == Some(t.tables[n])
  {
    TableManaged(c, t, s, n);
    WalkIsLookup(m, t, c.root, t.tables[n]);
  }

  /** The structures form a tree in memory: entries above the lowest level are never large pages, what they
      refer to is a locked frame outside the allocator's array and not the PML4, and no two of them refer to
      the same frame. */
  lemma EntriesFormTree(
    c: Config, m: Mem, t: Tree, cr3: Option<Frame>, s: seq<State>, n: Node, i: Index, k: Node, j: Index)
    requires Sound(c, m, t, cr3, s) && n in t.tables && k in t.tables && 2 <= n.level && 2 <= k.level
    requires Present(EntryAt(m, t.tables[n], i)) && Present(EntryAt(m, t.tables[k], j))
    ensures var e, f := EntryAt(m, t.tables[n], i), FrameField(EntryAt(m, t.tables[n], i));
      !PageSize(e) && Writable(e) && f in t.tables.Values && Held(c, s, f) && f !in c.arrFrames && f != c.root
    ensures FrameField(EntryAt(m, t.tables[n], i)) == FrameField(EntryAt(m, t.tables[k], j)) ==> n == k && i == j
  {
    hide FrameField, Held;
    ChildOfEntry(m, t, n, i);
    ChildOfEntry(m, t, k, j);
    var x, y := Node(n.level - 1, 512 * n.prefix + i), Node(k.level - 1, 512 * k.prefix + j);
    SplitIndex(n.prefix, i, x.prefix);
    SplitIndex(k.prefix, j, y.prefix);
    assert x != ROOT && ROOT in t.tables;
    assert t.tables[x] in t.tables.Values;
  }

  lemma ChildOfEntry(m: Mem, t: Tree, n: Node, i: Index)
    requires Encodes(m, t) && n in t.tables && 2 <= n.level && Present(EntryAt(m, t.tables[n], i))
    ensures var x := Node(n.level - 1, 512 * n.prefix + i);
      x in t.tables && FrameField(EntryAt(m, t.tables[n], i)) == t.tables[x] && !PageSize(EntryAt(m, t.tables[n], i))
  {
    assert Says(EntryAt(m, t.tables[n], i), n.level, Child(t, n, i));
  }
}

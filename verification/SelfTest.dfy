/** The byte that init_paging writes through its test mapping, and what that does to the page tables. */
module SelfTest {
  import opened Arithmetic
  import opened Words
  import opened Mmu
  import opened MachineModel
  import opened BitFields
  import opened PageTree
  import opened FrameStates
  import opened FrameArray
  import opened PagingState
  import opened MappingLog
  import opened Placement
  import opened IdentityRuns

  const TEST_ADDR: Word := 0x999_9999_9999
  const TEST_PAGE: Page := 0x9999_9999
  const TEST_BYTE := 123

  /** The store lands in physical byte 0x999: byte 1 of entry 307 of frame 0. */
  lemma TestByteAddress()
    ensures PageOf(TEST_ADDR) == TEST_PAGE && TEST_ADDR % PAGE_SZ / 8 == 307 && TEST_ADDR % 8 == 1
  {
  }

  lemma TestMapping()
    ensures Mapping(PageOf(TEST_ADDR), FrameOf(0)) == Mapping(TEST_PAGE, 0)
  {
    TestByteAddress();
  }

  lemma FlagsOfByte(q: nat, l: nat, w: Word)
    requires w == q * 0x100 + l && l < 0x100
    ensures Present(w) == (l % 2 == 1) && Writable(w) == (l / 2 % 2 == 1) && PageSize(w) == (l / 0x80 % 2 == 1)
  {
    DivMod(q * 0x80 + l / 2, 2, l % 2);
    DivMod(q * 0x40 + l / 2 / 2, 2, l / 2 % 2);
    DivMod(2 * q + l / 0x80, 0x80, l % 0x80);
    DivMod(q, 2, l / 0x80);
  }

  lemma LowByteFlags(w: Word, x: Word)
    requires w % 0x100 == x % 0x100
    ensures Present(w) == Present(x) && Writable(w) == Writable(x) && PageSize(w) == PageSize(x)
  {
    hide *;
    FlagsOfByte(w / 0x100, w % 0x100, w);
    FlagsOfByte(x / 0x100, x % 0x100, x);
  }

  /** Where an entry refers to after the store, if it referred to f before. */
  function Moved(f: Frame): Frame { f - f % 16 + 7 }

  /** The address bits 15:12 become 7. What the processor's walk reads of the entry is the same otherwise. */
  lemma TestByteFields(w: Word)
    ensures var x := WithByte(w, 1, TEST_BYTE);
      AddrField(x) == Moved(AddrField(w)) && ReservedField(x) == ReservedField(w)
      && Present(x) == Present(w) && Writable(x) == Writable(w) && PageSize(x) == PageSize(w)
  {
    hide WithByte, AddrField, ReservedField, Present, Writable, PageSize;
    var x := WithByte(w, 1, TEST_BYTE);
    WithByteOne(w, TEST_BYTE);
    var r, low := Decompose(w);
    var a := AddrField(w);
    TestByteParts(r, a, low, w, x);
    AddrIsMiddle(r, a, low, w);
    AddrIsMiddle(r, a - a % 16 + 7, 0xB00 + w % 0x100, x);
    LowByteFlags(w, x);
  }

  lemma TestByteParts(r: nat, a: nat, low: nat, w: nat, x: nat)
    requires w == (r * 0x1_0000_0000 + a) * 0x1000 + low && low < 0x1000 && a < 0x1_0000_0000
    requires x == w / 0x1_0000 * 0x1_0000 + 123 * 0x100 + w % 0x100
    ensures x == (r * 0x1_0000_0000 + (a - a % 16 + 7)) * 0x1000 + (0xB00 + w % 0x100)
    ensures 0xB00 + w % 0x100 < 0x1000 && a - a % 16 + 7 < 0x1_0000_0000 && w % 0x100 == x % 0x100
  {
    var b, y := a / 16, a % 16 * 0x1000 + low;
    assert w == (r * 0x1000_0000 + b) * 0x1_0000 + y;
    DivMod(r * 0x1000_0000 + b, 0x1_0000, y);
    LowByteOfSum(w / 0x1_0000, w % 0x100, x);
  }

  lemma LowByteOfSum(h: nat, l: nat, x: nat)
    requires x == h * 0x1_0000 + 123 * 0x100 + l && l < 0x100
    ensures x % 0x100 == l
  {
    DivMod(h * 0x100 + 123, 0x100, l);
  }

  function MovedChild(c: Option<Frame>): Option<Frame> {
    if c.None? then None else Some(Moved(c.value))
  }

  lemma OtherMember(w: Word, widths: seq<nat>, j: nat)
    requires j < |widths| && Offset(widths, |widths|) == 64
    requires Offset(widths, j + 1) <= 8 || 16 <= Offset(widths, j)
    ensures Field(WithByte(w, 1, TEST_BYTE), widths, j) == Field(w, widths, j)
  {
    hide ToBits, Value, Assign, Pow2;
    var bits := ToBits(w, 64);
    BitsOfValue(Assign(bits, 8, 8, TEST_BYTE));
    OffsetGrows(widths, j, |widths|);
    AssignElsewhere(bits, 8, 8, TEST_BYTE, Offset(widths, j), Offset(widths, j + 1));
  }

  /** In a PT_Entry the store also sets `g` and overwrites ignored1; every other member is what it was. */
  lemma TestByteInPtEntry(w: Word, j: nat)
    requires j < |PT_ENTRY|
    ensures EntryShape(PT_ENTRY, 10)
    ensures Field(WithByte(w, 1, TEST_BYTE), PT_ENTRY, j)
            == if j == 8 then 1 else if j == 9 then 5 else if j == 10 then Moved(AddrField(w))
               else Field(w, PT_ENTRY, j)
  {
    hide Offset, Pow2, Field, WithByte, AddrField, ReservedField;
    EntriesHaveShape();
    EntryLayouts();
    var x := WithByte(w, 1, TEST_BYTE);
    if j == 8 || j == 9 {
      OffsetStep(PT_ENTRY, 8);
      FieldValue(x, PT_ENTRY, j);
      StruckBits(w);
    } else if j == 10 {
      ReadsAreMembers(x, PT_ENTRY, 10);
      TestByteFields(w);
    } else {
      OutsideByte(PT_ENTRY, j, 10);
      OtherMember(w, PT_ENTRY, j);
    }
  }

  /** In the upper structures it overwrites ignored2. */
  lemma TestByteInTableEntry(w: Word, j: nat)
    requires j < |TABLE_ENTRY|
    ensures EntryShape(TABLE_ENTRY, 9)
    ensures Field(WithByte(w, 1, TEST_BYTE), TABLE_ENTRY, j)
            == if j == 8 then 0xB else if j == 9 then Moved(AddrField(w)) else Field(w, TABLE_ENTRY, j)
  {
    hide Offset, Pow2, Field, WithByte, AddrField, ReservedField;
    EntriesHaveShape();
    EntryLayouts();
    var x := WithByte(w, 1, TEST_BYTE);
    if j == 8 {
      FieldValue(x, TABLE_ENTRY, 8);
      StruckBits(w);
    } else if j == 9 {
      ReadsAreMembers(x, TABLE_ENTRY, 9);
      TestByteFields(w);
    } else {
      OutsideByte(TABLE_ENTRY, j, 9);
      OtherMember(w, TABLE_ENTRY, j);
    }
  }

  /** The members before bit 8 and after the address. */
  lemma OutsideByte(widths: seq<nat>, j: nat, k: nat)
    requires EntryShape(widths, k) && 8 <= k && Offset(widths, 8) == 8 && j < |widths| && (j < 8 || k < j)
    ensures Offset(widths, j + 1) <= 8 || 16 <= Offset(widths, j)
  {
    hide Offset;
    OffsetStep(widths, j);
    if j < 8 {
      OffsetGrows(widths, j, 8);
    } else if k + 1 < j {
      OffsetGrows(widths, k + 1, j);
    }
  }

  /** Bits 11:8 after the store, as one member or as two. */
  lemma StruckBits(w: Word)
    ensures var x := WithByte(w, 1, TEST_BYTE);
      x / Pow2(8) % Pow2(4) == 0xB && x / Pow2(8) % Pow2(1) == 1 && x / Pow2(9) % Pow2(3) == 5
  {
    hide WithByte, Pow2;
    SmallPowers();
    WithByteOne(w, TEST_BYTE);
    BitsOf123(w / 0x1_0000, w % 0x100, WithByte(w, 1, TEST_BYTE));
  }

  lemma BitsOf123(q: nat, l: nat, x: nat)
    requires x == q * 0x1_0000 + 123 * 0x100 + l && l < 0x100
    ensures x / 0x100 % 0x10 == 0xB && x / 0x100 % 2 == 1 && x / 0x200 % 8 == 5
  {
    DivMod(q * 0x100 + 123, 0x100, l);
    DivMod(q * 0x80 + 61, 0x200, 0x100 + l);
    DivMod(q * 0x10 + 7, 0x10, 0xB);
    DivMod(q * 0x80 + 61, 2, 1);
    DivMod(q * 0x10 + 7, 8, 5);
  }

  /** What a clean entry says after the store. */
  lemma TestByteEntry(e: Word, level: nat, c: Option<Frame>)
    requires Says(e, level, c)
    ensures Says(WithByte(e, 1, TEST_BYTE), level, MovedChild(c))
  {
    hide WithByte, AddrField, ReservedField, FrameField, Present, PageSize;
    TestByteFields(e);
    FrameFieldSplit(e);
    FrameFieldSplit(WithByte(e, 1, TEST_BYTE));
  }

  function TestStore(m: Mem): Mem {
    Put(m, 0, 307, WithByte(EntryAt(m, 0, 307), 1, TEST_BYTE))
  }

  lemma TestStoreSameExcept(m: Mem, k: Mem, fs: set<nat>)
    requires SameExcept(m, k, fs)
    ensures SameExcept(m, TestStore(k), fs + {0})
  {
    hide SameExcept, WithByte, Put;
    PutSameExcept(k, 0, 307, WithByte(EntryAt(k, 0, 307), 1, TEST_BYTE));
    SameExceptWider(k, TestStore(k), {0}, fs + {0});
    SameExceptChain(m, k, TestStore(k), fs, fs + {0});
  }

  /** What entry i of structure n refers to after the store. */
  function ChildAfterTest(t: Tree, n: Node, i: Index): Option<Frame>
    requires n in t.tables
  {
    if t.tables[n] == 0 && i == 307 then MovedChild(Child(t, n, i)) else Child(t, n, i)
  }

  lemma EntryAfterTest(m: Mem, t: Tree, n: Node, i: Index)
    requires Encodes(m, t) && n in t.tables
    ensures Says(EntryAt(TestStore(m), t.tables[n], i), n.level, ChildAfterTest(t, n, i))
  {
    hide WithByte, Says, Child, MovedChild, EntryAt, Put;
    EntryAtPut(m, 0, 307, WithByte(EntryAt(m, 0, 307), 1, TEST_BYTE), t.tables[n], i);
    assert Says(EntryAt(m, t.tables[n], i), n.level, Child(t, n, i));
    if t.tables[n] == 0 && i == 307 {
      TestByteEntry(EntryAt(m, 0, 307), n.level, Child(t, n, 307));
    }
  }

  // ---------------------------------------------------------------- what the store does to the tables

  /** Entry 307 of structure n is empty, or its address bits 15:12 are 7 already. */
  predicate Spared(t: Tree, n: Node) {
    Child(t, n, 307).None? || Child(t, n, 307).value % 16 == 7
  }

  /** Frame 0 is no structure, or its entry 307 does not suffer. */
  ghost predicate TestByteSafe(t: Tree) {
    forall n :: n in t.tables && t.tables[n] == 0 ==> Spared(t, n)
  }

  /** The test store leaves the tree encoded exactly when frame 0 is safe in that sense. */
  lemma TestStoreExact(m: Mem, t: Tree, root: Frame)
    requires WellFormed(t, root) && Encodes(m, t)
    ensures Encodes(TestStore(m), t) <==> TestByteSafe(t)
  {
    hide WithByte, Child, EntryAt, Put, TestStore, Clean, Present, FrameField;
    forall n, i: Index | n in t.tables
      ensures Says(EntryAt(TestStore(m), t.tables[n], i), n.level, ChildAfterTest(t, n, i))
    {
      EntryAfterTest(m, t, n, i);
    }
    if Encodes(TestStore(m), t) {
      forall n | n in t.tables && t.tables[n] == 0
        ensures Spared(t, n)
      {
        assert Says(EntryAt(TestStore(m), t.tables[n], 307), n.level, Child(t, n, 307));
      }
    }
  }

  /** A translation that reads no entry 307 is what it was, whatever memory holds. */
  lemma {:induction false} WalkAvoidsTestByte(m: Mem, level: nat, table: Frame, v: Page)
    requires level <= 4 && forall l :: 1 <= l <= level ==> IndexAt(l, v) != 307
    ensures WalkFrom(TestStore(m), level, table, v) == WalkFrom(m, level, table, v)
  {
    hide WithByte, EntryAt, IndexAt, Put;
    if level > 0 {
      var i := IndexAt(level, v);
      EntryAtPut(m, 0, 307, WithByte(EntryAt(m, 0, 307), 1, TEST_BYTE), table, i);
      var e := EntryAt(m, table, i);
      if Present(e) && !(PageSize(e) && level >= 2) {
        WalkAvoidsTestByte(m, level - 1, FrameField(e), v);
      }
    }
  }

  /** The test page is one: its translation reads entries 19, 102, 204 and 409. */
  lemma TestPageAvoids()
    ensures IndexAt(4, TEST_PAGE) == 19 && IndexAt(3, TEST_PAGE) == 102
    ensures IndexAt(2, TEST_PAGE) == 204 && IndexAt(1, TEST_PAGE) == 409
  {
    assert Prefix(1, TEST_PAGE) == 0x4C_CCCC;
    assert Prefix(2, TEST_PAGE) == 0x2666;
  }

  /** So the byte is read back, and the kernel panic of the self test is out of reach. */
  lemma TestByteReadBack(m: Mem, root: Frame)
    requires Walk(m, root, TEST_PAGE) == Some(0)
    ensures Walk(TestStore(m), root, TEST_PAGE) == Some(0)
    ensures TranslatesTo(m, Some(root), TEST_ADDR, 0x999) && TranslatesTo(TestStore(m), Some(root), TEST_ADDR, 0x999)
    ensures TestStore(m) == m[0x999 / 8 := WithByte(m[0x999 / 8], 0x999 % 8, TEST_BYTE)]
    ensures ByteAt(TestStore(m)[0x999 / 8], 0x999 % 8) == TEST_BYTE
  {
    hide WithByte, ByteAt, IndexAt, WalkFrom, PageOf;
    TestByteAddress();
    TestPageAvoids();
    ByteReadBack(EntryAt(m, 0, 307), 1, TEST_BYTE);
    WalkAvoidsTestByte(m, 4, root, TEST_PAGE);
  }

  /** The translation of page v goes, at this level, through an entry that the store moves. */
  ghost predicate StruckAt(t: Tree, level: nat, v: nat) {
    1 <= level <= 4 && NodeOf(level, v) in t.tables && t.tables[NodeOf(level, v)] == 0 && IndexAt(level, v) == 307
    && var c := Child(t, NodeOf(level, v), 307); c.Some? && c.value % 16 != 7
  }

  ghost predicate Struck(t: Tree, v: nat) {
    exists level :: StruckAt(t, level, v)
  }

  /** The byte is safe exactly if it strikes no page. */
  lemma SafeStrikesNone(t: Tree, root: Frame)
    requires WellFormed(t, root)
    ensures TestByteSafe(t) <==> forall v: Page :: !Struck(t, v)
  {
    hide Child, WellFormed, Struck;
    if TestByteSafe(t) {
      forall v: Page
        ensures !Struck(t, v)
      {
        SafeIsUnstruck(t, v);
      }
    } else {
      var n :| n in t.tables && t.tables[n] == 0 && !Spared(t, n);
      var v := PageThrough(t, root, n);
      StruckHere(t, n, v);
    }
  }

  lemma SafeIsUnstruck(t: Tree, v: nat)
    requires TestByteSafe(t)
    ensures !Struck(t, v)
  {
    hide Child;
  }

  lemma StruckHere(t: Tree, n: Node, v: Page)
    requires n in t.tables && t.tables[n] == 0 && !Spared(t, n) && 1 <= n.level <= 4
    requires NodeOf(n.level, v) == n && IndexAt(n.level, v) == 307
    ensures Struck(t, v)
  {
    hide NodeOf, IndexAt, Child;
    assert StruckAt(t, n.level, v);
  }

  /** The lowest page whose translation reads entry 307 of structure n. */
  lemma PageThrough(t: Tree, root: Frame, n: Node) returns (v: Page)
    requires WellFormed(t, root) && n in t.tables
    ensures 1 <= n.level <= 4 && NodeOf(n.level, v) == n && IndexAt(n.level, v) == 307
  {
    NodeDigits(t, root, n);
    hide WellFormed, Prefix, IndexAt;
    var p := n.prefix;
    var a, b, c, d := 0, 0, 0, 0;
    if n.level == 4 {
      a := 307;
    } else if n.level == 3 {
      a, b := p, 307;
    } else if n.level == 2 {
      a, b, c := p / 512, p % 512, 307;
    } else {
      a, b, c, d := p / 512 / 512, p / 512 % 512, p % 512, 307;
    }
    v := ((a * 512 + b) * 512 + c) * 512 + d;
    DigitsOfPage(a, b, c, d, v);
    PrefixOfPage(v);
  }

  /** The prefix of a structure has one 9-bit digit for each level above it. */
  lemma NodeDigits(t: Tree, root: Frame, n: Node)
    requires WellFormed(t, root) && n in t.tables
    ensures 1 <= n.level <= 4 && (n.level == 4 ==> n.prefix == 0) && (n.level == 3 ==> n.prefix < 512)
    ensures (n.level == 2 ==> n.prefix / 512 < 512) && (n.level == 1 ==> n.prefix / 512 / 512 < 512)
    decreases 4 - n.level
  {
    if n.level < 4 {
      ParentExists(t, root, n);
      NodeDigits(t, root, Parent(n));
    }
  }

  lemma UnstruckPath(m: Mem, t: Tree, v: Page)
    requires Encodes(m, t) && !Struck(t, v)
    ensures PathEncoded(TestStore(m), t, 4, v)
  {
    hide TestStore, Encodes, EntryAt, NodeOf, IndexAt, Child, Says;
    forall l | 1 <= l <= 4 && NodeOf(l, v) in t.tables
      ensures Says(
        EntryAt(TestStore(m), t.tables[NodeOf(l, v)], IndexAt(l, v)), l, Child(t, NodeOf(l, v), IndexAt(l, v)))
    {
      assert !StruckAt(t, l, v);
      ParentOnPath(l, v);
      EntryAfterTest(m, t, NodeOf(l, v), IndexAt(l, v));
    }
  }

  /** Every page whose translation does not go through a moved entry keeps it. */
  lemma UnstruckWalks(m: Mem, t: Tree, root: Frame)
    requires WellFormed(t, root) && Encodes(m, t)
    ensures forall v: Page :: !Struck(t, v) ==> Walk(TestStore(m), root, v) == Lookup(t.pages, v)
  {
    hide TestStore, Encodes, Struck, WalkFrom, ReadFrom, PathEncoded, Prefix;
    forall v: Page | !Struck(t, v)
      ensures Walk(TestStore(m), root, v) == Lookup(t.pages, v)
    {
      PrefixOfPage(v);
      UnstruckPath(m, t, v);
      WalkOnPath(TestStore(m), t, root, 4, v);
    }
  }

  /** Above the struck structure the entries of the path are as before. */
  lemma AboveStruck(t: Tree, root: Frame, k: nat, level: nat, v: Page)
    requires WellFormed(t, root) && StruckAt(t, k, v) && k < level <= 4
    ensures NodeOf(level, v) in t.tables && NodeOf(level - 1, v) in t.tables
    ensures ChildAfterTest(t, NodeOf(level, v), IndexAt(level, v)) == Some(t.tables[NodeOf(level - 1, v)])
  {
    hide Child, NodeOf, IndexAt, WellFormed;
    PathAbove(t, root, k, level, v);
    PathAbove(t, root, k, level - 1, v);
    LevelOnPath(level, v);
    LevelOnPath(k, v);
    if t.tables[NodeOf(level, v)] == 0 {
      OneStructure(t, root, NodeOf(k, v), NodeOf(level, v));
    }
    ChildOfPrefix(t, level, v);
  }

  lemma LevelOnPath(level: nat, v: nat)
    ensures NodeOf(level, v).level == level
  {
  }

  lemma {:induction false} StruckFromNode(m: Mem, t: Tree, root: Frame, k: nat, level: nat, v: Page)
    requires WellFormed(t, root) && Encodes(m, t) && StruckAt(t, k, v) && k <= level <= 4
      && NodeOf(level, v) in t.tables
    ensures WalkFrom(TestStore(m), level, t.tables[NodeOf(level, v)], v)
            == WalkFrom(TestStore(m), k - 1, Moved(Child(t, NodeOf(k, v), 307).value), v)
  {
    hide TestStore, Encodes, EntryAt, IndexAt, Child, WellFormed, Prefix;
    EntryAfterTest(m, t, NodeOf(level, v), IndexAt(level, v));
    if k < level {
      hide ChildAfterTest, StruckAt;
      AboveStruck(t, root, k, level, v);
      StruckFromNode(m, t, root, k, level - 1, v);
    }
  }

  /** The other translations go on in the frame that the moved entry now refers to. */
  lemma StruckWalks(m: Mem, t: Tree, root: Frame)
    requires WellFormed(t, root) && Encodes(m, t)
    ensures forall k: nat, v: Page :: StruckAt(t, k, v) ==>
      Walk(TestStore(m), root, v) == WalkFrom(TestStore(m), k - 1, Moved(Child(t, NodeOf(k, v), 307).value), v)
  {
    hide TestStore, Encodes, WalkFrom;
    forall k: nat, v: Page | StruckAt(t, k, v)
      ensures Walk(TestStore(m), root, v) == WalkFrom(TestStore(m), k - 1, Moved(Child(t, NodeOf(k, v), 307).value), v)
    {
      PrefixOfPage(v);
      StruckFromNode(m, t, root, k, 4, v);
    }
  }

  lemma TestStoreWritable(m: Mem, t: Tree)
    requires AllWritable(m, t)
    ensures AllWritable(TestStore(m), t)
  {
    hide WithByte, Present, Writable, EntryAt, Put;
    forall n, i: Index | n in t.tables
      ensures Present(EntryAt(TestStore(m), t.tables[n], i)) ==> Writable(EntryAt(TestStore(m), t.tables[n], i))
    {
      EntryAtPut(m, 0, 307, WithByte(EntryAt(m, 0, 307), 1, TEST_BYTE), t.tables[n], i);
      TestByteFields(EntryAt(m, 0, 307));
    }
  }

  /** A frame 0 that the allocator does not hold as locked is safe, unless the PML4 itself lies there. */
  lemma UnlockedZeroIsSafe(c: Config, m: Mem, t: Tree, cr3: Option<Frame>, s: seq<State>)
    requires Sound(c, m, t, cr3, s) && c.root != 0 && !Held(c, s, 0)
    ensures TestByteSafe(t)
  {
  }

  /** The joint invariant survives the store under exactly the same condition. */
  lemma SoundTestStore(c: Config, m: Mem, t: Tree, cr3: Option<Frame>, s: seq<State>)
    requires Sound(c, m, t, cr3, s)
    ensures Sound(c, TestStore(m), t, cr3, s) <==> TestByteSafe(t)
    ensures TestByteSafe(t) ==> Direct(TestStore(m), cr3, c.arrFrames)
  {
    TestStoreExact(m, t, c.root);
    TestStoreWritable(m, t);
    hide TestStore, Encodes, AllWritable, TestByteSafe;
    if TestByteSafe(t) {
      ArrayDirect(c, TestStore(m), t, cr3, s);
    }
  }

  /** In a structure of the frame array the byte would be padding: the second byte of a state's word. */
  lemma TestStoreSlot(m: Mem, f: Frame, i: Index)
    ensures i % 2 == 0 ==> EntryAt(TestStore(m), f, i) == EntryAt(m, f, i)
    ensures EntryAt(TestStore(m), f, i) % 256 == EntryAt(m, f, i) % 256
  {
    hide WithByte, EntryAt, Put;
    var w := EntryAt(m, 0, 307);
    var x := WithByte(w, 1, TEST_BYTE);
    WithByteOne(w, TEST_BYTE);
    LowByteOfSum(w / 0x1_0000, w % 0x100, x);
    EntryAtPut(m, 0, 307, x, f, i);
  }

  lemma AddrIndexEven(i: nat)
    ensures AddrIndex(i) % 2 == 0
  {
  }

  /** The test store never changes the frame array. */
  lemma TestStoreArray(m: Mem, arr: nat, n: nat)
    requires Fits(arr, n)
    ensures States(TestStore(m), arr, n) == States(m, arr, n) && Addrs(TestStore(m), arr, n) == Addrs(m, arr, n)
  {
    hide TestStore, EntryAt, AddrIndex, StateIndex, SlotFrame;
    forall i | 0 <= i < n
      ensures StateAt(TestStore(m), arr, n, i) == StateAt(m, arr, n, i)
      ensures AddrAt(TestStore(m), arr, n, i) == AddrAt(m, arr, n, i)
    {
      TestStoreSlot(m, SlotFrame(arr, n, i), StateIndex(i));
      TestStoreSlot(m, SlotFrame(arr, n, i), AddrIndex(i));
      AddrIndexEven(i);
    }
  }

  // ---------------------------------------------------------------- the run of init_paging

  function InitRun(fs: seq<Frame>, dev: Devices): seq<Mapping> {
    MemoryRun(fs, dev) + [Mapping(TEST_PAGE, 0)]
  }

  /** After init_paging the test page goes to frame 0, every other page visited to the frame of its own number, cut to
      32 bits, and a page that was not visited nowhere. */
  lemma InitRunTranslates(fs: seq<Frame>, dev: Devices, v: nat)
    ensures Lookup(Replay(InitRun(fs, dev)), TEST_PAGE) == Some(0)
    ensures v != TEST_PAGE ==>
      (Lookup(Replay(InitRun(fs, dev)), v).Some?
       <==> exists k :: 0 <= k < |MemoryRun(fs, dev)| && MemoryRun(fs, dev)[k].page == v)
    ensures v != TEST_PAGE && Lookup(Replay(InitRun(fs, dev)), v).Some? ==>
      Lookup(Replay(InitRun(fs, dev)), v) == Some(v % 0x1_0000_0000)
  {
    hide MemoryRun, OwnFrames, Replay;
    LogStep(MemoryRun(fs, dev), Mapping(TEST_PAGE, 0));
    ReplayIsLast(MemoryRun(fs, dev), v);
    RunsIdentity(fs, dev);
    ReplayOwn(MemoryRun(fs, dev), v);
  }

  lemma InitRunCost(have: set<Node>, fs: seq<Frame>, dev: Devices)
    requires ROOT in have
    ensures Cost(have, MemoryRun(fs, dev)) <= Cost(have, InitRun(fs, dev))
    ensures Cost(have, InitRun(fs, dev))
      == Cost(have, MemoryRun(fs, dev)) + |PathNodes(TEST_PAGE) - (have + Nodes(MemoryRun(fs, dev)))|
  {
    CostStep(have, MemoryRun(fs, dev), Mapping(TEST_PAGE, 0));
  }
}

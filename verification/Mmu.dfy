/** Linear addresses and the 4-level translation of section 4.5 of the Intel SDM, volume 3A. */
module Mmu {
  import opened Arithmetic
  import opened Words

  // ---------------------------------------------------------------- linear addresses

  /** The page number without its lowest `level` 9-bit indexes. */
  function Prefix(level: nat, v: nat): (p: nat)
    ensures p <= v
  {
    if level == 0 then v else Prefix(level - 1, v) / 512
  }

  /** The index that the structure of the given level (1 page table .. 4 PML4) is read at. */
  function IndexAt(level: nat, v: nat): Index
    requires 1 <= level
  {
    Prefix(level - 1, v) % 512
  }

  /** The page number of a 64-bit address; bits 63:48 take no part in the translation. */
  function PageOf(vaddr: Word): Page {
    vaddr / 0x1000 % 0x10_0000_0000
  }

  datatype VaddrIndexes = VaddrIndexes(pml4: Index, pdpt: Index, pd: Index, pt: Index)

  /** The four bit ranges 47:39, 38:30, 29:21 and 20:12 of section 4.5 of the SDM. */
  function IndexesOf(vaddr: Word): VaddrIndexes {
    VaddrIndexes(vaddr / 0x80_0000_0000 % 512, vaddr / 0x4000_0000 % 512, vaddr / 0x20_0000 % 512, vaddr / 0x1000 % 512)
  }

  method ExtractVaddrPagingIndexes(vaddr: Word) returns (indexes: VaddrIndexes)
    ensures indexes == IndexesOf(vaddr)
  {
    var rest := vaddr / 0x1000;
    var pt := rest % 512;
    rest := rest / 512;
    var pd := rest % 512;
    rest := rest / 512;
    var pdpt := rest % 512;
    rest := rest / 512;
    Nested(vaddr, 0x1000, 512);
    Nested(vaddr, 0x20_0000, 512);
    Nested(vaddr, 0x4000_0000, 512);
    indexes := VaddrIndexes(rest % 512, pdpt, pd, pt);
  }

  /** The four indexes and the 12-bit offset are the digits of the low 48 bits. */
  lemma IndexesRebuildAddress(vaddr: Word)
    ensures var x := IndexesOf(vaddr);
      vaddr % 0x1_0000_0000_0000
      == (((x.pml4 * 512 + x.pdpt) * 512 + x.pd) * 512 + x.pt) * 0x1000 + vaddr % 0x1000
    ensures var x := IndexesOf(vaddr);
      PageOf(vaddr) == ((x.pml4 * 512 + x.pdpt) * 512 + x.pd) * 512 + x.pt
  {
    PageIsIndexes(vaddr);
    Nested(vaddr, 0x1000, 0x10_0000_0000);
  }

  lemma PageIsIndexes(vaddr: Word)
    ensures var x := IndexesOf(vaddr);
      PageOf(vaddr) == ((x.pml4 * 512 + x.pdpt) * 512 + x.pd) * 512 + x.pt
  {
    var p := vaddr / 0x1000;
    Nested(vaddr, 0x1000, 512);
    Nested(vaddr, 0x1000, 0x4_0000);
    Nested(vaddr, 0x1000, 0x800_0000);
    Nested(p, 512, 0x800_0000);
    Nested(p / 512, 512, 0x4_0000);
    Nested(p / 0x4_0000, 512, 512);
    Nested(p, 512, 512);
    Nested(p, 0x4_0000, 512);
  }

  /** The four digits of a page number in base 512. */
  lemma {:induction false} DigitsOfPage(a: Index, b: Index, c: Index, d: Index, v: nat)
    requires v == ((a * 512 + b) * 512 + c) * 512 + d
    ensures Prefix(1, v) == (a * 512 + b) * 512 + c && Prefix(2, v) == a * 512 + b && Prefix(3, v) == a
    ensures IndexAt(4, v) == a && IndexAt(3, v) == b && IndexAt(2, v) == c && IndexAt(1, v) == d
  {
    DivMod((a * 512 + b) * 512 + c, 512, d);
    DivMod(a * 512 + b, 512, c);
    DivMod(a, 512, b);
    PrefixStep(1, v);
    PrefixStep(2, v);
    PrefixStep(3, v);
    PrefixStep(0, v);
  }

  lemma PrefixStep(level: nat, v: nat)
    ensures Prefix(0, v) == v && Prefix(level + 1, v) == Prefix(level, v) / 512
  {
  }

  /** Two addresses share all four indexes iff they lie in the same page modulo 2^48. */
  lemma SameIndexesIffSamePage(a: Word, b: Word)
    ensures IndexesOf(a) == IndexesOf(b) <==> a % 0x1_0000_0000_0000 / 0x1000 == b % 0x1_0000_0000_0000 / 0x1000
  {
    hide IndexesOf, PageOf, Prefix;
    PageModulo(a);
    PageModulo(b);
    var x, y := IndexesOf(a), IndexesOf(b);
    PageIsIndexes(a);
    PageIsIndexes(b);
    DigitsOfPage(x.pml4, x.pdpt, x.pd, x.pt, PageOf(a));
    DigitsOfPage(y.pml4, y.pdpt, y.pd, y.pt, PageOf(b));
  }

  lemma PageModulo(a: Word)
    ensures a % 0x1_0000_0000_0000 / 0x1000 == PageOf(a)
  {
    Nested(a, 0x1000, 0x10_0000_0000);
    DivMod(PageOf(a), 0x1000, a % 0x1000);
  }

  lemma IndexesAreLevels(vaddr: Word)
    ensures var v := PageOf(vaddr);
      IndexesOf(vaddr) == VaddrIndexes(IndexAt(4, v), IndexAt(3, v), IndexAt(2, v), IndexAt(1, v))
  {
    hide IndexesOf, PageOf, Prefix;
    var x := IndexesOf(vaddr);
    PageIsIndexes(vaddr);
    DigitsOfPage(x.pml4, x.pdpt, x.pd, x.pt, PageOf(vaddr));
  }

  lemma {:induction false} PrefixOfPage(v: Page)
    ensures Prefix(4, v) == 0
  {
    hide Prefix;
    PrefixStep(0, v);
    PrefixStep(1, v);
    PrefixStep(2, v);
    PrefixStep(3, v);
    Nested(v, 512, 512);
    Nested(v, 0x4_0000, 512);
    Nested(v, 0x800_0000, 512);
  }

  // ---------------------------------------------------------------- translation

  /** The frame of a 2 MiB (level 2) or 1 GiB (level 3) page that entry e maps v to. */
  function LargeFrame(e: Word, level: nat, v: Page): Frame
    requires 2 <= level <= 3
  {
    if level == 2 then FrameField(e) / 512 * 512 + v % 512
    else FrameField(e) / 0x4_0000 * 0x4_0000 + v % 0x4_0000
  }

  /** The translation of page v from the structure in frame `table` down; None is a page fault. */
  function WalkFrom(m: Mem, level: nat, table: Frame, v: Page): Option<Frame>
    requires level <= 4
  {
    if level == 0 then Some(table) else
    var e := EntryAt(m, table, IndexAt(level, v));
    if !Present(e) then None
    else if PageSize(e) && level == 4 then None
    else if PageSize(e) && level >= 2 then Some(LargeFrame(e, level, v))
    else WalkFrom(m, level - 1, FrameField(e), v)
  }

  function Walk(m: Mem, root: Frame, v: Page): Option<Frame> {
    WalkFrom(m, 4, root, v)
  }

  /** Bit 7 set: reserved in a PML4, a 1 GiB page in a PDPT, a 2 MiB page in a page directory. */
  lemma {:induction false} LargePages(m: Mem, level: nat, table: Frame, v: Page)
    requires 2 <= level <= 4
    requires Present(EntryAt(m, table, IndexAt(level, v))) && PageSize(EntryAt(m, table, IndexAt(level, v)))
    ensures var f, w := FrameField(EntryAt(m, table, IndexAt(level, v))), WalkFrom(m, level, table, v);
      if level == 4 then w == None
      else var size := if level == 3 then 0x4_0000 else 0x200;
        w.Some? && w.value / size == f / size && w.value % size == v % size
  {
    hide IndexAt, EntryAt, Present, PageSize, FrameField;
    var f := FrameField(EntryAt(m, table, IndexAt(level, v)));
    DivMod(f / 0x4_0000, 0x4_0000, v % 0x4_0000);
    DivMod(f / 0x200, 0x200, v % 0x200);
  }

  /** The frames of the structures that this translation reads. */
  ghost function ReadFrom(m: Mem, level: nat, table: Frame, v: Page): set<nat>
    requires level <= 4
  {
    if level == 0 then {} else
    var e := EntryAt(m, table, IndexAt(level, v));
    {table} + if Present(e) && !(PageSize(e) && level >= 2) then ReadFrom(m, level - 1, FrameField(e), v) else {}
  }

  /** A translation depends on nothing but the structures it reads. */
  lemma {:induction false} WalkDependsOnReads(m: Mem, k: Mem, fs: set<nat>, level: nat, table: Frame, v: Page)
    requires level <= 4 && SameExcept(m, k, fs) && ReadFrom(m, level, table, v) !! fs
    ensures WalkFrom(k, level, table, v) == WalkFrom(m, level, table, v)
    ensures ReadFrom(k, level, table, v) == ReadFrom(m, level, table, v)
  {
    hide EntryAt, IndexAt, SameExcept, FrameField, LargeFrame;
    if level > 0 {
      SameExceptEntry(m, k, fs, table, IndexAt(level, v));
      var e := EntryAt(m, table, IndexAt(level, v));
      if Present(e) && !(PageSize(e) && level >= 2) {
        WalkDependsOnReads(m, k, fs, level - 1, FrameField(e), v);
      }
    }
  }

  /** Frame f can be reached at its own address: paging is off, or page f translates to itself. */
  ghost predicate Maps(m: Mem, cr3: Option<Frame>, f: Frame) {
    cr3.Some? ==> f < 0x10_0000_0000 && Walk(m, cr3.value, f) == Some(f)
  }

  /** The frames of fs can be reached at their own addresses, through structures outside fs. */
  ghost predicate Direct(m: Mem, cr3: Option<Frame>, fs: set<nat>) {
    forall f: Frame :: f in fs ==> Maps(m, cr3, f) && (cr3.Some? ==> ReadFrom(m, 4, cr3.value, f) !! fs)
  }

  lemma PagingOffIsDirect(m: Mem, fs: set<nat>)
    ensures Direct(m, None, fs)
  {
  }

  lemma DirectMaps(m: Mem, cr3: Option<Frame>, fs: set<nat>, f: Frame)
    requires Direct(m, cr3, fs) && f in fs
    ensures Maps(m, cr3, f)
  {
  }

  /** Direct frames stay direct whatever is stored in them. */
  lemma DirectKept(m: Mem, k: Mem, cr3: Option<Frame>, fs: set<nat>)
    requires Direct(m, cr3, fs) && SameExcept(m, k, fs)
    ensures Direct(k, cr3, fs)
  {
    forall f: Frame | f in fs
      ensures Maps(k, cr3, f) && (cr3.Some? ==> ReadFrom(k, 4, cr3.value, f) !! fs)
    {
      if cr3.Some? {
        WalkDependsOnReads(m, k, fs, 4, cr3.value, f);
      }
    }
  }
}

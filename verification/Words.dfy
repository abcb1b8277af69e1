/** 64-bit words, 8-byte page-table entries and the physical memory that holds them. */
module Words {
  import opened Arithmetic

  type Word = w: int | 0 <= w < 0x1_0000_0000_0000_0000

  /** A page frame number of the 52-bit physical address space. */
  type Frame = f: nat | f < 0x100_0000_0000

  /** A page number of the 48-bit linear address space. */
  type Page = v: nat | v < 0x10_0000_0000

  /** An index into one of the 512-entry paging structures. */
  type Index = i: nat | i < 512

  const PAGE_SZ := 4096
  const PHYS_WORDS: nat := 0x2_0000_0000_0000

  /** The whole physical address space, one element per aligned 8-byte word. */
  type Mem = m: seq<Word> | |m| == 0x2_0000_0000_0000 witness seq(0x2_0000_0000_0000, _ => 0)

  datatype Option<+T> = None | Some(value: T)

  function Lookup<K, V>(m: map<K, V>, k: K): (r: Option<V>)
    ensures r.Some? <==> k in m
    ensures r.Some? ==> r.value == m[k]
  {
    if k in m then Some(m[k]) else None
  }

  /** Entry number i of the table in frame f. */
  function EntryAt(m: Mem, f: Frame, i: Index): Word {
    m[512 * f + i]
  }

  /** Memory m with entry i of frame f replaced by w. */
  function Put(m: Mem, f: Frame, i: Index, w: Word): Mem {
    m[512 * f + i := w]
  }

  lemma EntryAtPut(m: Mem, f: Frame, i: Index, w: Word, g: Frame, j: Index)
    ensures EntryAt(Put(m, f, i, w), g, j) == if f == g && i == j then w else EntryAt(m, g, j)
  {
    if f != g {
      assert 512 * f + i != 512 * g + j;
    }
  }

  /** m and k hold the same words outside the frames of the set fs. */
  ghost predicate SameExcept(m: Mem, k: Mem, fs: set<nat>) {
    forall w :: 0 <= w < |m| && w / 512 !in fs ==> m[w] == k[w]
  }

  lemma SameExceptEntry(m: Mem, k: Mem, fs: set<nat>, f: Frame, i: Index)
    requires SameExcept(m, k, fs) && f !in fs
    ensures EntryAt(m, f, i) == EntryAt(k, f, i)
  {
    assert (512 * f + i) / 512 == f;
  }

  lemma SameExceptRefl(m: Mem, fs: set<nat>)
    ensures SameExcept(m, m, fs)
  {
  }

  lemma SameExceptTrans(m: Mem, k: Mem, l: Mem, fs: set<nat>)
    requires SameExcept(m, k, fs) && SameExcept(k, l, fs)
    ensures SameExcept(m, l, fs)
  {
    forall w | 0 <= w < |m| && w / 512 !in fs
      ensures m[w] == l[w]
    {
      assert m[w] == k[w];
    }
  }

  /** Stores in one set of frames and then in a larger one. */
  lemma SameExceptChain(m: Mem, k: Mem, l: Mem, fs: set<nat>, gs: set<nat>)
    requires SameExcept(m, k, fs) && SameExcept(k, l, gs) && fs <= gs
    ensures SameExcept(m, l, gs)
  {
    SameExceptWider(m, k, fs, gs);
    SameExceptTrans(m, k, l, gs);
  }

  lemma SameExceptWider(m: Mem, k: Mem, fs: set<nat>, gs: set<nat>)
    requires SameExcept(m, k, fs) && fs <= gs
    ensures SameExcept(m, k, gs)
  {
  }

  ghost predicate Zeroed(m: Mem, f: Frame) {
    forall i: Index :: EntryAt(m, f, i) == 0
  }

  lemma PutSameExcept(m: Mem, f: Frame, i: Index, w: Word)
    ensures SameExcept(m, Put(m, f, i, w), {f})
  {
    assert (512 * f + i) / 512 == f;
  }

  // ---------------------------------------------------------------- entries

  predicate Present(w: Word) { w % 2 == 1 }

  predicate Writable(w: Word) { w / 2 % 2 == 1 }

  predicate PageSize(w: Word) { w / 0x80 % 2 == 1 }

  /** Bits 51:12, what the processor takes as the frame of the next structure or page. */
  function FrameField(w: Word): Frame { w / 0x1000 % 0x100_0000_0000 }

  /** Bits 43:12, the 32-bit address member of the four entry structures. */
  function AddrField(w: Word): nat { w / 0x1000 % 0x1_0000_0000 }

  /** Bits 51:44, the member `reserved1`. */
  function ReservedField(w: Word): nat { w / 0x1000_0000_0000 % 0x100 }

  function WriteAddr(w: Word, a: nat): Word {
    w - AddrField(w) * 0x1000 + a % 0x1_0000_0000 * 0x1000
  }

  function WritePresent(w: Word): Word { w - w % 2 + 1 }

  function WriteRw(w: Word): Word { w - w / 2 % 2 * 2 + 2 }

  /** The three bit-field assignments that end every stage of map_vaddr_to_paddr. */
  function LinkWord(w: Word, a: nat): Word { WriteRw(WritePresent(WriteAddr(w, a))) }

  /** The flag bits live in the low 12 bits. */
  lemma FlagsAreLow(hi: nat, low: nat, w: Word)
    requires w == hi * 0x1000 + low && low < 0x1000
    ensures Present(w) == (low % 2 == 1) && Writable(w) == (low / 2 % 2 == 1) && PageSize(w) == (low / 0x80 % 2 == 1)
    ensures w / 0x1000 == hi
  {
    DivMod(hi, 0x1000, low);
    DivMod(hi * 0x800 + low / 2, 2, low % 2);
    DivMod(hi * 0x400 + low / 2 / 2, 2, low / 2 % 2);
    DivMod(hi * 0x20 + low / 0x80, 0x80, low % 0x80);
    DivMod(hi * 0x10 + low / 0x80 / 2, 2, low / 0x80 % 2);
  }

  lemma AddrIsMiddle(r: nat, a: nat, low: nat, w: Word)
    requires w == (r * 0x1_0000_0000 + a) * 0x1000 + low && low < 0x1000 && a < 0x1_0000_0000
    ensures AddrField(w) == a && ReservedField(w) == r % 0x100
  {
    DivMod(r * 0x1_0000_0000 + a, 0x1000, low);
    DivMod(r, 0x1_0000_0000, a);
    DivMod(r, 0x1000_0000_0000, a * 0x1000 + low);
  }

  lemma Decompose(w: Word) returns (r: nat, low: nat)
    ensures w == (r * 0x1_0000_0000 + AddrField(w)) * 0x1000 + low && low == w % 0x1000
    ensures r == w / 0x1000 / 0x1_0000_0000
  {
    low := w % 0x1000;
    r := w / 0x1000 / 0x1_0000_0000;
  }

  lemma WriteAddrFields(w: Word, a: nat)
    ensures var x := WriteAddr(w, a);
      AddrField(x) == a % 0x1_0000_0000 && ReservedField(x) == ReservedField(w)
      && Present(x) == Present(w) && Writable(x) == Writable(w) && PageSize(x) == PageSize(w)
  {
    hide AddrField, ReservedField, Present, Writable, PageSize;
    var r, low := Decompose(w);
    var f := a % 0x1_0000_0000;
    var x := WriteAddr(w, a);
    AddrIsMiddle(r, AddrField(w), low, w);
    AddrIsMiddle(r, f, low, x);
    FlagsAreLow(r * 0x1_0000_0000 + AddrField(w), low, w);
    FlagsAreLow(r * 0x1_0000_0000 + f, low, x);
  }

  /** Replacing the low 12 bits leaves the address and reserved members alone. */
  lemma LowChangeFields(w: Word, x: Word)
    requires w / 0x1000 == x / 0x1000
    ensures AddrField(x) == AddrField(w) && ReservedField(x) == ReservedField(w)
  {
    hide AddrField, ReservedField;
    var r, low := Decompose(w);
    AddrIsMiddle(r, AddrField(w), low, w);
    AddrIsMiddle(r, AddrField(w), x % 0x1000, x);
  }

  lemma WritePresentFields(w: Word)
    ensures var x := WritePresent(w);
      AddrField(x) == AddrField(w) && ReservedField(x) == ReservedField(w)
      && Present(x) && Writable(x) == Writable(w) && PageSize(x) == PageSize(w)
  {
    hide AddrField, ReservedField;
    var x, q, b, a := WritePresent(w), w / 2 / 2, w / 2 % 2, w % 2;
    LowBits(q, b, a, w);
    LowBits(q, b, 1, x);
    LowChangeFields(w, x);
  }

  /** The two low bits and the bits above them. */
  lemma LowBits(q: nat, b: nat, a: nat, w: Word)
    requires w == 4 * q + 2 * b + a && a < 2 && b < 2
    ensures w % 2 == a && w / 2 % 2 == b && w / 0x80 == q / 0x20 && w / 0x1000 == q / 0x400
  {
    DivMod(2 * q + b, 2, a);
    DivMod(q, 2, b);
    DivMod(q / 0x20, 0x80, 4 * (q % 0x20) + 2 * b + a);
    DivMod(q / 0x400, 0x1000, 4 * (q % 0x400) + 2 * b + a);
  }

  lemma WriteRwFields(w: Word)
    ensures var x := WriteRw(w);
      AddrField(x) == AddrField(w) && ReservedField(x) == ReservedField(w)
      && Present(x) == Present(w) && Writable(x) && PageSize(x) == PageSize(w)
  {
    hide AddrField, ReservedField;
    var x, q, b, a := WriteRw(w), w / 2 / 2, w / 2 % 2, w % 2;
    LowBits(q, b, a, w);
    LowBits(q, 1, a, x);
    LowChangeFields(w, x);
  }

  lemma FrameFieldSplit(w: Word)
    ensures FrameField(w) == ReservedField(w) * 0x1_0000_0000 + AddrField(w)
  {
    var x := w / 0x1000;
    var h := x / 0x1_0000_0000;
    DivMod(h, 0x1000_0000_0000, x % 0x1_0000_0000 * 0x1000 + w % 0x1000);
    DivMod(h / 0x100, 0x100_0000_0000, h % 0x100 * 0x1_0000_0000 + x % 0x1_0000_0000);
  }
}

/** Physical memory behind the memory-management unit, read and written one word at a time. */
module MachineModel {
  import opened Words
  import opened Mmu
  import opened BitFields

  class Machine {
    const ram: array<Word>
    /** The frame of the PML4 once CR3 is loaded; None while addresses are still physical. */
    var cr3: Option<Frame>

    ghost predicate Valid()
      reads this
    {
      ram.Length == PHYS_WORDS
    }

    ghost function Mem(): Mem
      requires Valid()
      reads this, ram
    {
      ram[..]
    }

    constructor (ram: array<Word>)
      requires ram.Length == PHYS_WORDS
      ensures Valid() && this.ram == ram && cr3 == None && Mem() == ram[..]
    {
      this.ram := ram;
      cr3 := None;
    }

    /** The physical address behind address a, or None for a page fault. */
    method Translate(a: nat) returns (p: Option<nat>)
      requires Valid() && a < 0x1_0000_0000_0000_0000
      ensures cr3.None? ==> p == Some(a)
      ensures cr3.Some? ==> var w := Walk(Mem(), cr3.value, PageOf(a));
        if w.None? then p == None else p == Some(w.value * PAGE_SZ + a % PAGE_SZ)
    {
      if cr3.None? {
        return Some(a);
      }
      var table: Frame, level, v := cr3.value, 4, PageOf(a);
      while level > 0
        invariant level <= 4
        invariant WalkFrom(Mem(), level, table, v) == Walk(Mem(), cr3.value, v)
      {
        var e := ram[512 * table + IndexAt(level, v)];
        if !Present(e) || (PageSize(e) && level == 4) {
          return None;
        }
        if PageSize(e) && level >= 2 {
          return Some(LargeFrame(e, level, v) * PAGE_SZ + a % PAGE_SZ);
        }
        table, level := FrameField(e), level - 1;
      }
      p := Some(table * PAGE_SZ + a % PAGE_SZ);
    }

    /** Reads word i of frame f at its own address. */
    method Load(f: Frame, i: Index) returns (w: Word)
      requires Valid() && Maps(Mem(), cr3, f)
      ensures w == EntryAt(Mem(), f, i)
    {
      DirectAddress(f, i);
      var p := Translate(f * PAGE_SZ + 8 * i);
      assert p == Some(f * PAGE_SZ + 8 * i);
      w := ram[p.value / 8];
    }

    /** A one-byte store through the address translation, to physical address p. */
    method StoreByte(a: Word, b: nat, ghost p: nat)
      requires Valid() && b < 256 && TranslatesTo(Mem(), cr3, a, p)
      modifies ram
      ensures Mem() == old(Mem())[p / 8 := WithByte(old(Mem())[p / 8], p % 8, b)]
    {
      hide Walk, WithByte, PageOf;
      var q := Translate(a);
      SameAddress(a, p);
      ram[q.value / 8] := WithByte(ram[q.value / 8], q.value % 8, b);
    }

    /** A one-byte load through the address translation; None is a page fault. */
    method LoadByte(a: Word) returns (b: Option<nat>)
      requires Valid() && (cr3.None? ==> a < 0x10_0000_0000_0000)
      ensures forall p: nat :: TranslatesTo(Mem(), cr3, a, p) ==> b == Some(ByteAt(Mem()[p / 8], p % 8))
    {
      hide Walk, ByteAt, PageOf;
      var q := Translate(a);
      forall p: nat | TranslatesTo(Mem(), cr3, a, p)
        ensures p == p / PAGE_SZ * PAGE_SZ + p % PAGE_SZ
      {
        SameAddress(a, p);
      }
      if q.None? {
        return None;
      }
      b := Some(ByteAt(ram[q.value / 8], q.value % 8));
    }

    /** Writes word i of frame f at its own address. */
    method Store(f: Frame, i: Index, w: Word)
      requires Valid() && Maps(Mem(), cr3, f)
      modifies ram
      ensures Mem() == Put(old(Mem()), f, i, w)
    {
      DirectAddress(f, i);
      var p := Translate(f * PAGE_SZ + 8 * i);
      assert p == Some(f * PAGE_SZ + 8 * i);
      ram[p.value / 8] := w;
    }

    /** memset(table, 0, PAGE_SZ) on frame f. */
    method ZeroFrame(f: Frame)
      requires Valid() && Direct(Mem(), cr3, {f})
      modifies ram
      ensures SameExcept(old(Mem()), Mem(), {f}) && Zeroed(Mem(), f)
    {
      ghost var m := Mem();
      var i := 0;
      while i < 512
        invariant i <= 512
        invariant SameExcept(m, Mem(), {f})
        invariant forall j: Index :: j < i ==> EntryAt(Mem(), f, j) == 0
      {
        ghost var k := Mem();
        DirectKept(m, k, cr3, {f});
        assert f in {f};
        Store(f, i, 0);
        PutSameExcept(k, f, i, 0);
        forall j: Index | j <= i
          ensures EntryAt(Mem(), f, j) == 0
        {
          EntryAtPut(k, f, i, 0, f, j);
        }
        SameExceptTrans(m, k, Mem(), {f});
        i := i + 1;
      }
    }

    /** The assignments of address, `present` and `rw` to entry i of the table in frame f. */
    method SetEntry(f: Frame, i: Index, a: nat)
      requires Valid() && Maps(Mem(), cr3, f)
      requires var w := WriteAddr(EntryAt(Mem(), f, i), a);
        Maps(Put(Mem(), f, i, w), cr3, f) && Maps(Put(Mem(), f, i, WritePresent(w)), cr3, f)
      modifies ram
      ensures Mem() == Put(old(Mem()), f, i, LinkWord(old(EntryAt(Mem(), f, i)), a))
    {
      ghost var m := Mem();
      var w := Load(f, i);
      Store(f, i, WriteAddr(w, a));
      w := Load(f, i);
      Store(f, i, WritePresent(w));
      assert Mem() == Put(m, f, i, WritePresent(w));
      w := Load(f, i);
      Store(f, i, WriteRw(w));
    }
  }

  /** Address a reaches physical address p without a page fault. */
  ghost predicate TranslatesTo(m: Mem, cr3: Option<Frame>, a: Word, p: nat) {
    p < 0x10_0000_0000_0000
    && if cr3.None? then p == a
       else Walk(m, cr3.value, PageOf(a)) == Some(p / PAGE_SZ) && p % PAGE_SZ == a % PAGE_SZ
  }

  lemma SameAddress(a: Word, p: nat)
    ensures p == p / PAGE_SZ * PAGE_SZ + p % PAGE_SZ
  {
  }

  lemma DirectAddress(f: Frame, i: Index)
    ensures (f * PAGE_SZ + 8 * i) % PAGE_SZ == 8 * i && (f * PAGE_SZ + 8 * i) / 8 == 512 * f + i
    ensures f < 0x10_0000_0000 ==> PageOf(f * PAGE_SZ + 8 * i) == f
  {
  }
}

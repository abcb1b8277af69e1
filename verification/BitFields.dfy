/** Words as sequences of bits, packed structures of bit-fields, and assignments to their members. */
module BitFields {
  import opened Arithmetic
  import opened Words

  type Bit = b: nat | b < 2

  function Pow2(n: nat): (p: nat)
    ensures 0 < p
  {
    if n == 0 then 1 else 2 * Pow2(n - 1)
  }

  /** The number with these bits, lowest first. */
  function Value(bits: seq<Bit>): nat {
    if bits == [] then 0 else bits[0] + 2 * Value(bits[1..])
  }

  /** The lowest n bits of w. */
  function ToBits(w: nat, n: nat): (bits: seq<Bit>)
    ensures |bits| == n
  {
    if n == 0 then [] else [w % 2] + ToBits(w / 2, n - 1)
  }

  lemma {:induction false} ValueOfBits(w: nat, n: nat)
    ensures w < Pow2(n) ==> Value(ToBits(w, n)) == w
  {
    if n > 0 {
      ValueOfBits(w / 2, n - 1);
      assert ToBits(w, n)[1..] == ToBits(w / 2, n - 1);
    }
  }

  lemma {:induction false} BitsOfValue(bits: seq<Bit>)
    ensures ToBits(Value(bits), |bits|) == bits
  {
    if bits != [] {
      BitsOfValue(bits[1..]);
      assert Value(bits) / 2 == Value(bits[1..]);
    }
  }

  lemma {:induction false} ValueBound(bits: seq<Bit>)
    ensures Value(bits) < Pow2(|bits|)
  {
    if bits != [] {
      ValueBound(bits[1..]);
    }
  }

  lemma {:induction false} ValueAppend(a: seq<Bit>, b: seq<Bit>)
    ensures Value(a + b) == Value(a) + Pow2(|a|) * Value(b)
  {
    if a == [] {
      assert a + b == b;
    } else {
      ValueAppend(a[1..], b);
      assert (a + b)[1..] == a[1..] + b;
      MulAssociative(2, Pow2(|a| - 1), Value(b));
    }
  }

  // ---------------------------------------------------------------- structures

  /** The first bit of member k of a structure whose members have these widths. */
  function Offset(widths: seq<nat>, k: nat): nat
    requires k <= |widths|
  {
    if k == 0 then 0 else Offset(widths, k - 1) + widths[k - 1]
  }

  lemma {:induction false} OffsetGrows(widths: seq<nat>, j: nat, k: nat)
    requires j < k <= |widths|
    ensures Offset(widths, j) + widths[j] <= Offset(widths, k)
  {
    if j < k - 1 {
      OffsetGrows(widths, j, k - 1);
    }
  }

  /** The value of member k. */
  function Member(bits: seq<Bit>, widths: seq<nat>, k: nat): nat
    requires k < |widths| && Offset(widths, k + 1) <= |bits|
  {
    Value(bits[Offset(widths, k)..Offset(widths, k + 1)])
  }

  /** The bits from lo on replaced by the low bits of v, `width` of them. */
  function Assign(bits: seq<Bit>, lo: nat, width: nat, v: nat): (r: seq<Bit>)
    requires lo + width <= |bits|
    ensures |r| == |bits|
  {
    bits[..lo] + ToBits(v, width) + bits[lo + width..]
  }

  lemma AssignElsewhere(bits: seq<Bit>, lo: nat, width: nat, v: nat, a: nat, b: nat)
    requires lo + width <= |bits| && a <= b <= |bits| && (b <= lo || lo + width <= a)
    ensures Assign(bits, lo, width, v)[a..b] == bits[a..b]
  {
    var r := Assign(bits, lo, width, v);
    assert r[..lo] == bits[..lo] && r[lo + width..] == bits[lo + width..];
    forall i | a <= i < b
      ensures r[i] == bits[i]
    {
      if i < lo {
        assert r[..lo][i] == bits[..lo][i];
      } else {
        assert r[lo + width..][i - lo - width] == bits[lo + width..][i - lo - width];
      }
    }
  }

  /** An assignment to member k gives that member the value, cut to its width, and changes no other member. */
  lemma {:induction false} AssignMember(bits: seq<Bit>, widths: seq<nat>, k: nat, v: nat, j: nat)
    requires k < |widths| && j < |widths| && Offset(widths, |widths|) == |bits|
    ensures Offset(widths, k + 1) <= |bits| && Offset(widths, j + 1) <= |bits|
    ensures Member(Assign(bits, Offset(widths, k), widths[k], v), widths, j)
            == if j == k then Value(ToBits(v, widths[k])) else Member(bits, widths, j)
  {
    OffsetGrows(widths, k, |widths|);
    OffsetGrows(widths, j, |widths|);
    var lo, hi := Offset(widths, j), Offset(widths, j + 1);
    var r := Assign(bits, Offset(widths, k), widths[k], v);
    if j == k {
      assert r[lo..hi] == ToBits(v, widths[k]);
    } else {
      if j < k {
        OffsetGrows(widths, j, k);
      } else {
        OffsetGrows(widths, k, j);
      }
      AssignElsewhere(bits, Offset(widths, k), widths[k], v, lo, hi);
    }
  }

  // ---------------------------------------------------------------- the entry structures

  /** PT_Entry: present rw us pwt pcd a d pat g ignored1 page_addr reserved1 ignored3 protection_key xd. */
  const PT_ENTRY: seq<nat> := [1, 1, 1, 1, 1, 1, 1, 1, 1, 3, 32, 8, 7, 4, 1]

  /** PD_Entry, PDPT_Entry, PML4_Entry: present rw us pwt pcd a ignored1 ps ignored2 address reserved1 ignored3 xd. */
  const TABLE_ENTRY: seq<nat> := [1, 1, 1, 1, 1, 1, 1, 1, 4, 32, 8, 11, 1]

  /** Both layouts fill a 64-bit word, with `present` at bit 0, `rw` at 1, the address at 12, `reserved1` at 44. */
  lemma EntryLayouts()
    ensures Offset(PT_ENTRY, 15) == 64 && Offset(TABLE_ENTRY, 13) == 64
    ensures Offset(PT_ENTRY, 0) == Offset(TABLE_ENTRY, 0) == 0 && Offset(PT_ENTRY, 1) == Offset(TABLE_ENTRY, 1) == 1
    ensures Offset(TABLE_ENTRY, 7) == 7 && Offset(TABLE_ENTRY, 8) == Offset(PT_ENTRY, 8) == 8
    ensures Offset(PT_ENTRY, 10) == Offset(TABLE_ENTRY, 9) == 12 && PT_ENTRY[10] == TABLE_ENTRY[9] == 32
    ensures Offset(PT_ENTRY, 11) == Offset(TABLE_ENTRY, 10) == 44 && PT_ENTRY[11] == TABLE_ENTRY[10] == 8
  {
    assert Offset(TABLE_ENTRY, 7) == 7;
    assert Offset(PT_ENTRY, 8) == 8;
    assert Offset(PT_ENTRY, 12) == 52;
    assert Offset(TABLE_ENTRY, 11) == 52;
  }

  lemma Pow2Add(a: nat, b: nat)
    ensures Pow2(a + b) == Pow2(a) * Pow2(b)
  {
    if a > 0 {
      Pow2Add(a - 1, b);
      MulAssociative(2, Pow2(a - 1), Pow2(b));
    }
  }

  lemma Powers()
    ensures Pow2(12) == 0x1000 && Pow2(32) == 0x1_0000_0000
    ensures Pow2(44) == 0x1000_0000_0000 && Pow2(64) == 0x1_0000_0000_0000_0000
  {
    assert Pow2(8) == 0x100 && Pow2(4) == 0x10;
    Pow2Add(8, 4);
    Pow2Add(8, 8);
    Pow2Add(16, 16);
    Pow2Add(12, 32);
    Pow2Add(32, 32);
  }

  /** A word in three parts: 12 flag bits, 32 address bits, 20 high bits. */
  lemma {:induction false} ThreeParts(l: seq<Bit>, a: seq<Bit>, h: seq<Bit>)
    requires |l| == 12 && |a| == 32
    ensures Value(l + a + h) == Value(l) + 0x1000 * Value(a) + 0x1000_0000_0000 * Value(h)
    ensures Value(l) < 0x1000 && Value(a) < 0x1_0000_0000
  {
    ValueAppend(l + a, h);
    ValueAppend(l, a);
    ValueBound(l);
    ValueBound(a);
    Powers();
  }

  /** The assignment of the address member, in terms of bits. */
  lemma {:induction false} WriteAddrIsAssign(w: Word, a: nat)
    ensures ToBits(WriteAddr(w, a), 64) == Assign(ToBits(w, 64), 12, 32, a % 0x1_0000_0000)
  {
    var bits := ToBits(w, 64);
    var l, m, h := bits[..12], bits[12..44], bits[44..];
    var x := ToBits(a % 0x1_0000_0000, 32);
    Powers();
    ValueOfBits(w, 64);
    ValueOfBits(a % 0x1_0000_0000, 32);
    assert bits == l + m + h;
    ThreeParts(l, m, h);
    ThreeParts(l, x, h);
    SplitWord(Value(l), Value(m), Value(h), w);
    assert WriteAddr(w, a) == Value(l + x + h);
    BitsOfValue(l + x + h);
  }

  lemma SplitWord(l: nat, a: nat, h: nat, w: Word)
    requires w == l + 0x1000 * a + 0x1000_0000_0000 * h && l < 0x1000 && a < 0x1_0000_0000
    ensures AddrField(w) == a && w % 0x1000 == l
  {
    AddrIsMiddle(h, a, l, w);
  }

  lemma {:induction false} WritePresentIsAssign(w: Word)
    ensures ToBits(WritePresent(w), 64) == Assign(ToBits(w, 64), 0, 1, 1)
  {
    hide ToBits, Pow2;
    var q := w / 2;
    DivMod(q, 2, 1);
    ToBitsOnce(w, 63);
    ToBitsOnce(WritePresent(w), 63);
    OneBit(1);
  }

  lemma {:induction false} ToBitsOnce(w: nat, n: nat)
    ensures ToBits(w, n + 1) == [w % 2] + ToBits(w / 2, n)
  {
  }

  lemma {:induction false} ToBitsTwice(w: nat, n: nat)
    ensures ToBits(w, n + 2) == [w % 2, w / 2 % 2] + ToBits(w / 2 / 2, n)
  {
    ToBitsOnce(w, n + 1);
    ToBitsOnce(w / 2, n);
  }

  lemma {:induction false} OneBit(b: Bit)
    ensures ToBits(b, 1) == [b]
  {
    assert ToBits(b / 2, 0) == [];
  }

  lemma {:induction false} WriteRwIsAssign(w: Word)
    ensures ToBits(WriteRw(w), 64) == Assign(ToBits(w, 64), 1, 1, 1)
  {
    hide ToBits, Pow2;
    var q, b, a := w / 2 / 2, w / 2 % 2, w % 2;
    DivMod(2 * q + 1, 2, a);
    DivMod(q, 2, 1);
    ToBitsTwice(w, 62);
    ToBitsTwice(WriteRw(w), 62);
    OneBit(1);
    assert [a, b] + ToBits(q, 62) == [a] + [b] + ToBits(q, 62);
  }

  // ---------------------------------------------------------------- what the reads and stores do to the members

  /** Without its lowest k bits. */
  lemma BitsDrop(w: nat, n: nat, k: nat)
    requires k <= n
    ensures ToBits(w, n)[k..] == ToBits(w / Pow2(k), n - k)
  {
    if k > 0 {
      BitsDrop(w / 2, n - 1, k - 1);
      Nested(w, 2, Pow2(k - 1));
      assert ToBits(w, n)[1..] == ToBits(w / 2, n - 1);
      assert ToBits(w, n)[k..] == ToBits(w, n)[1..][k - 1..];
    }
  }

  lemma {:induction false} BitsTake(w: nat, n: nat, k: nat)
    requires k <= n
    ensures ToBits(w, n)[..k] == ToBits(w, k)
  {
    if k > 0 {
      BitsTake(w / 2, n - 1, k - 1);
      assert ToBits(w, n)[..k] == [w % 2] + ToBits(w / 2, n - 1)[..k - 1];
    }
  }

  lemma {:induction false} ValueOfLowBits(w: nat, n: nat)
    ensures Value(ToBits(w, n)) == w % Pow2(n)
  {
    if n > 0 {
      ValueOfLowBits(w / 2, n - 1);
      Nested(w, 2, Pow2(n - 1));
      assert ToBits(w, n)[1..] == ToBits(w / 2, n - 1);
    }
  }

  /** Member k of word w, taken as a structure with these members. */
  function Field(w: Word, widths: seq<nat>, k: nat): nat
    requires k < |widths| && Offset(widths, |widths|) == 64
  {
    OffsetGrows(widths, k, |widths|);
    Member(ToBits(w, 64), widths, k)
  }

  /** A member of a 64-bit structure is read by shifting and masking. */
  lemma {:induction false} FieldValue(w: Word, widths: seq<nat>, k: nat)
    requires k < |widths| && Offset(widths, |widths|) == 64
    ensures Field(w, widths, k) == w / Pow2(Offset(widths, k)) % Pow2(widths[k])
  {
    hide ToBits, Value, Pow2, Offset;
    OffsetStep(widths, k);
    OffsetGrows(widths, k, |widths|);
    var lo, width := Offset(widths, k), widths[k];
    var bits := ToBits(w, 64);
    BitsDrop(w, 64, lo);
    BitsTake(w / Pow2(lo), 64 - lo, width);
    ValueOfLowBits(w / Pow2(lo), width);
    assert bits[lo..lo + width] == bits[lo..][..width];
  }

  lemma OffsetStep(widths: seq<nat>, k: nat)
    requires k < |widths|
    ensures Offset(widths, k + 1) == Offset(widths, k) + widths[k]
  {
  }

  lemma SmallPowers()
    ensures Pow2(0) == 1 && Pow2(1) == 2 && Pow2(3) == 8 && Pow2(4) == 0x10
    ensures Pow2(7) == 0x80 && Pow2(8) == 0x100 && Pow2(9) == 0x200
  {
    assert Pow2(4) == 0x10;
    assert Pow2(8) == 0x100;
  }

  /** A 64-bit structure with `present` and `rw` first, the 32-bit address as member k at bit 12, and then
      `reserved1`. */
  predicate EntryShape(widths: seq<nat>, k: nat) {
    2 <= k < |widths| - 1 && widths[0] == widths[1] == 1 && widths[k] == 32 && widths[k + 1] == 8
    && Offset(widths, 0) == 0 && Offset(widths, 1) == 1 && Offset(widths, k) == 12 && Offset(widths, k + 1) == 44
    && Offset(widths, |widths|) == 64
  }

  /** All four entry structures have that shape. */
  lemma EntriesHaveShape()
    ensures EntryShape(PT_ENTRY, 10) && EntryShape(TABLE_ENTRY, 9)
    ensures TABLE_ENTRY[7] == 1 && Offset(TABLE_ENTRY, 7) == 7
  {
    hide Offset;
    EntryLayouts();
  }

  /** What the model reads of an entry are the members of the structure. */
  lemma ReadsAreMembers(w: Word, widths: seq<nat>, k: nat)
    requires EntryShape(widths, k)
    ensures AddrField(w) == Field(w, widths, k) && ReservedField(w) == Field(w, widths, k + 1)
    ensures Present(w) == (Field(w, widths, 0) == 1) && Writable(w) == (Field(w, widths, 1) == 1)
  {
    hide Pow2, Offset, Field;
    Powers();
    SmallPowers();
    FieldValue(w, widths, k);
    FieldValue(w, widths, k + 1);
    FieldValue(w, widths, 0);
    FieldValue(w, widths, 1);
  }

  /** In the upper structures so is `ps`. */
  lemma PageSizeIsMember(w: Word)
    ensures EntryShape(TABLE_ENTRY, 9) && PageSize(w) == (Field(w, TABLE_ENTRY, 7) == 1)
  {
    hide Pow2, Offset, Field;
    EntriesHaveShape();
    SmallPowers();
    FieldValue(w, TABLE_ENTRY, 7);
  }

  /** After the three assignments of map_vaddr_to_paddr `present` and `rw` are set, the address is stored, and every
      other member of the structure is what it was. */
  lemma LinkMembers(e: Word, a: nat, widths: seq<nat>, k: nat, j: nat)
    requires EntryShape(widths, k) && j < |widths|
    ensures Field(LinkWord(e, a), widths, j)
            == if j < 2 then 1 else if j == k then a % 0x1_0000_0000 else Field(e, widths, j)
  {
    hide ToBits, Value, Pow2, Offset, Member, Assign, WriteAddr, WritePresent, WriteRw;
    var f := a % 0x1_0000_0000;
    var w := WriteAddr(e, f);
    WriteAddrLow(e, a);
    WriteAddrIsAssign(e, f);
    WritePresentIsAssign(w);
    WriteRwIsAssign(WritePresent(w));
    AssignMember(ToBits(e, 64), widths, k, f, j);
    AssignMember(ToBits(w, 64), widths, 0, 1, j);
    AssignMember(ToBits(WritePresent(w), 64), widths, 1, 1, j);
    Powers();
    SmallPowers();
    ValueOfLowBits(f, 32);
    ValueOfLowBits(1, 1);
  }

  lemma WriteAddrLow(e: Word, a: nat)
    ensures WriteAddr(e, a % 0x1_0000_0000) == WriteAddr(e, a)
  {
  }

  // ---------------------------------------------------------------- single bytes

  /** Byte k of a word in memory. */
  function ByteAt(w: Word, k: nat): nat
    requires k < 8
  {
    Value(ToBits(w, 64)[8 * k..8 * k + 8])
  }

  /** The word after a one-byte store to its byte k. */
  function WithByte(w: Word, k: nat, b: nat): (r: Word)
    requires k < 8 && b < 256
    ensures r == Value(Assign(ToBits(w, 64), 8 * k, 8, b))
  {
    Powers();
    ValueBound(Assign(ToBits(w, 64), 8 * k, 8, b));
    Value(Assign(ToBits(w, 64), 8 * k, 8, b))
  }

  lemma ByteReadBack(w: Word, k: nat, b: nat)
    requires k < 8 && b < 256
    ensures ByteAt(WithByte(w, k, b), k) == b
  {
    var bits := Assign(ToBits(w, 64), 8 * k, 8, b);
    BitsOfValue(bits);
    assert bits[8 * k..8 * k + 8] == ToBits(b, 8);
    assert Pow2(8) == 256;
    ValueOfBits(b, 8);
  }

  /** The second byte of a word holds bits 15:8. */
  lemma WithByteOne(w: Word, b: nat)
    requires b < 256
    ensures WithByte(w, 1, b) == w / 0x1_0000 * 0x1_0000 + b * 0x100 + w % 0x100
  {
    hide ToBits, Value, Pow2;
    var bits := ToBits(w, 64);
    var l, m, h := bits[..8], bits[8..16], bits[16..];
    assert bits == l + m + h;
    Powers();
    SmallPowers();
    ValueOfBits(w, 64);
    TwoBytes(l, m, h);
    ValueOfBits(b, 8);
    TwoBytes(l, ToBits(b, 8), h);
    SplitBytes(Value(l), Value(m), Value(h), w);
  }

  lemma SplitBytes(l: nat, m: nat, h: nat, w: nat)
    requires w == l + 0x100 * m + 0x1_0000 * h && l < 0x100 && m < 0x100
    ensures w / 0x1_0000 == h && w % 0x100 == l
  {
    DivMod(h, 0x1_0000, l + 0x100 * m);
    DivMod(m + 0x100 * h, 0x100, l);
  }

  lemma {:induction false} TwoBytes(l: seq<Bit>, m: seq<Bit>, h: seq<Bit>)
    requires |l| == 8 && |m| == 8
    ensures Value(l + m + h) == Value(l) + 0x100 * Value(m) + 0x1_0000 * Value(h)
    ensures Value(l) < 0x100 && Value(m) < 0x100
  {
    ValueAppend(l + m, h);
    ValueAppend(l, m);
    ValueBound(l);
    ValueBound(m);
    assert Pow2(8) == 0x100;
    Pow2Add(8, 8);
  }
}

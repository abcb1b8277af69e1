/** The allocator's array of 16-byte PageFrame structures, as words of physical memory. */
module FrameArray {
  import opened Words
  import opened FrameStates
  import opened Counting

  /** The array of n structures that starts at frame `arr` lies inside the physical address space. */
  predicate Fits(arr: nat, n: nat) {
    arr + (n + 255) / 256 <= 0x100_0000_0000
  }

  /** The frames that hold the 16n bytes of the array. */
  ghost function ArrayFrames(arr: nat, n: nat): (fs: set<nat>)
    ensures forall f :: f in fs <==> arr <= f < arr + (n + 255) / 256
  {
    Range(arr, arr + (n + 255) / 256)
  }

  function SlotFrame(arr: nat, n: nat, i: nat): Frame
    requires Fits(arr, n) && i < n
  {
    arr + i / 256
  }

  lemma SlotInArray(arr: nat, n: nat, i: nat)
    requires Fits(arr, n) && i < n
    ensures SlotFrame(arr, n, i) in ArrayFrames(arr, n)
  {
  }

  function AddrIndex(i: nat): Index { 2 * (i % 256) }

  function StateIndex(i: nat): Index { 2 * (i % 256) + 1 }

  /** Structure i takes the 16 bytes from byte 16*i of the array on: first the address, then the word with the state. */
  lemma SlotAddress(arr: nat, n: nat, i: nat)
    requires Fits(arr, n) && i < n
    ensures 4096 * SlotFrame(arr, n, i) + 8 * AddrIndex(i) == 4096 * arr + 16 * i
    ensures 4096 * SlotFrame(arr, n, i) + 8 * StateIndex(i) == 4096 * arr + 16 * i + 8
  {
  }

  /** Member `frame_addr` of structure i. */
  function AddrAt(m: Mem, arr: nat, n: nat, i: nat): Word
    requires Fits(arr, n) && i < n
  {
    EntryAt(m, SlotFrame(arr, n, i), AddrIndex(i))
  }

  /** Member `state` of structure i, the low byte of the second word. */
  function StateAt(m: Mem, arr: nat, n: nat, i: nat): State
    requires Fits(arr, n) && i < n
  {
    EntryAt(m, SlotFrame(arr, n, i), StateIndex(i)) % 256
  }

  ghost function Addrs(m: Mem, arr: nat, n: nat): (s: seq<Word>)
    requires Fits(arr, n)
    ensures |s| == n && forall i :: 0 <= i < n ==> s[i] == AddrAt(m, arr, n, i)
  {
    seq(n, i requires 0 <= i < n => AddrAt(m, arr, n, i))
  }

  ghost function States(m: Mem, arr: nat, n: nat): (s: seq<State>)
    requires Fits(arr, n)
    ensures |s| == n && forall i :: 0 <= i < n ==> s[i] == StateAt(m, arr, n, i)
  {
    seq(n, i requires 0 <= i < n => StateAt(m, arr, n, i))
  }

  function WriteState(w: Word, s: State): Word { w - w % 256 + s }

  lemma WriteStateByte(w: Word, s: State)
    ensures WriteState(w, s) % 256 == s
  {
  }

  lemma SlotsDiffer(arr: nat, n: nat, i: nat, j: nat)
    requires Fits(arr, n) && i < n && j < n && i != j
    ensures SlotFrame(arr, n, i) != SlotFrame(arr, n, j)
            || (AddrIndex(i) != AddrIndex(j) && StateIndex(i) != StateIndex(j))
  {
    assert i == i / 256 * 256 + i % 256 && j == j / 256 * 256 + j % 256;
  }

  /** In memory: structure i is the words 2*i and 2*i + 1 of the array, the state the low byte of the second. */
  lemma SlotWords(m: Mem, arr: nat, n: nat, i: nat)
    requires Fits(arr, n) && i < n
    ensures 512 * arr + 2 * i + 1 < |m|
    ensures AddrAt(m, arr, n, i) == m[512 * arr + 2 * i] && StateAt(m, arr, n, i) == m[512 * arr + 2 * i + 1] % 256
  {
    SlotAddress(arr, n, i);
  }

  /** Storing the state byte of structure i changes that state and nothing else of the array. */
  lemma StoreState(m: Mem, arr: nat, n: nat, i: nat, w: Word)
    requires Fits(arr, n) && i < n
    ensures var k := Put(m, SlotFrame(arr, n, i), StateIndex(i), w);
      States(k, arr, n) == States(m, arr, n)[i := w % 256] && Addrs(k, arr, n) == Addrs(m, arr, n)
      && SameExcept(m, k, ArrayFrames(arr, n))
  {
    var f, x := SlotFrame(arr, n, i), StateIndex(i);
    var k := Put(m, f, x, w);
    PutSameExcept(m, f, x, w);
    assert f in ArrayFrames(arr, n);
    forall j | 0 <= j < n
      ensures StateAt(k, arr, n, j) == if j == i then w % 256 else StateAt(m, arr, n, j)
      ensures AddrAt(k, arr, n, j) == AddrAt(m, arr, n, j)
    {
      if j != i {
        SlotsDiffer(arr, n, i, j);
      }
      EntryAtPut(m, f, x, w, SlotFrame(arr, n, j), StateIndex(j));
      EntryAtPut(m, f, x, w, SlotFrame(arr, n, j), AddrIndex(j));
    }
  }

  lemma StoreAddr(m: Mem, arr: nat, n: nat, i: nat, w: Word)
    requires Fits(arr, n) && i < n
    ensures var k := Put(m, SlotFrame(arr, n, i), AddrIndex(i), w);
      Addrs(k, arr, n) == Addrs(m, arr, n)[i := w] && States(k, arr, n) == States(m, arr, n)
      && SameExcept(m, k, ArrayFrames(arr, n))
  {
    var f, x := SlotFrame(arr, n, i), AddrIndex(i);
    var k := Put(m, f, x, w);
    PutSameExcept(m, f, x, w);
    assert f in ArrayFrames(arr, n);
    forall j | 0 <= j < n
      ensures AddrAt(k, arr, n, j) == if j == i then w else AddrAt(m, arr, n, j)
      ensures StateAt(k, arr, n, j) == StateAt(m, arr, n, j)
    {
      if j != i {
        SlotsDiffer(arr, n, i, j);
      }
      EntryAtPut(m, f, x, w, SlotFrame(arr, n, j), AddrIndex(j));
      EntryAtPut(m, f, x, w, SlotFrame(arr, n, j), StateIndex(j));
    }
  }

  /** Writes outside the array's frames leave every structure as it was. */
  lemma ArrayElsewhere(m: Mem, k: Mem, fs: set<nat>, arr: nat, n: nat)
    requires Fits(arr, n) && SameExcept(m, k, fs) && fs !! ArrayFrames(arr, n)
    ensures States(k, arr, n) == States(m, arr, n) && Addrs(k, arr, n) == Addrs(m, arr, n)
  {
    forall i | 0 <= i < n
      ensures StateAt(k, arr, n, i) == StateAt(m, arr, n, i) && AddrAt(k, arr, n, i) == AddrAt(m, arr, n, i)
    {
      var f := SlotFrame(arr, n, i);
      assert f in ArrayFrames(arr, n);
      SameExceptEntry(m, k, fs, f, StateIndex(i));
      SameExceptEntry(m, k, fs, f, AddrIndex(i));
    }
  }
}

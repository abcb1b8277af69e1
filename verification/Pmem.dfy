/** The physical frame allocator. */
module Pmem {
  import opened Words
  import opened Mmu
  import opened MachineModel
  import opened FrameStates
  import opened FrameArray
  import opened MemoryMap
  import opened FrameLayout

  /** (size_t) -1 */
  const NOT_FOUND: Word := 0xFFFF_FFFF_FFFF_FFFF

  /** What pmem_request_frame returns in state s. */
  function Requested(addrs: seq<Word>, s: seq<State>): Word
    requires |addrs| == |s|
  {
    if FirstFree(s) < |s| then addrs[FirstFree(s)] else 0
  }

  /** The address of the lowest frame in state 0, or 0 if there is none. */
  lemma RequestedIsLowest(addrs: seq<Word>, s: seq<State>)
    requires |addrs| == |s|
    ensures (forall i :: 0 <= i < |s| ==> s[i] != 0) ==> Requested(addrs, s) == 0 && Step(s, Request) == s
    ensures forall i :: 0 <= i < |s| && s[i] == 0 && (forall j :: 0 <= j < i ==> s[j] != 0) ==>
      Requested(addrs, s) == addrs[i] && Step(s, Request) == s[i := 1]
  {
    hide FirstFree;
  }

  /** In every state NULL means that no frame is free, exactly if address 0 is not the address of a managed frame. */
  lemma NullMeansExhaustedExact(addrs: seq<Word>)
    ensures 0 !in addrs
      <==> forall s: seq<State> :: |s| == |addrs| ==> (Requested(addrs, s) == 0 <==> Count(s, FREE) == 0)
  {
    hide Count;
    forall s: seq<State> | |s| == |addrs|
      ensures 0 !in addrs ==> (Requested(addrs, s) == 0 <==> Count(s, FREE) == 0)
    {
      NoneFree(s);
    }
    if 0 in addrs {
      var k :| 0 <= k < |addrs| && addrs[k] == 0;
      var s: seq<State> := seq(|addrs|, i => if i == k then FREE else LOCKED);
      NoneFree(s);
      assert s[k] == FREE;
      assert FirstFree(s) == k;
    }
  }

  class PhysicalMemory {
    const machine: Machine
    const memoryMap: seq<Descriptor>
    const stack: Word
    var freeFrames: nat
    var reservedFrames: nat
    var lockedFrames: nat
    var frames: nat
    /** The frame number of the first byte of the array. */
    var arr: nat
    var initialized: bool

    constructor (machine: Machine, memoryMap: seq<Descriptor>, stack: Word)
      ensures this.machine == machine && this.memoryMap == memoryMap && this.stack == stack && !initialized
    {
      this.machine, this.memoryMap, this.stack := machine, memoryMap, stack;
      freeFrames, reservedFrames, lockedFrames, frames, arr, initialized := 0, 0, 0, 0, 0, false;
    }

    /** The array lies in memory and can be reached at its own address. */
    ghost predicate Ready()
      reads this, machine, machine.ram
    {
      machine.Valid() && Fits(arr, frames) && Direct(machine.Mem(), machine.cr3, ArrayFrames(arr, frames))
    }

    ghost function StateSeq(): (s: seq<State>)
      requires machine.Valid() && Fits(arr, frames)
      reads this, machine, machine.ram
      ensures |s| == frames
    {
      States(machine.Mem(), arr, frames)
    }

    ghost function AddrSeq(): (s: seq<Word>)
      requires machine.Valid() && Fits(arr, frames)
      reads this, machine, machine.ram
      ensures |s| == frames
    {
      Addrs(machine.Mem(), arr, frames)
    }

    /** The cached counters are the numbers of array entries in each state. */
    ghost predicate Counted()
      requires machine.Valid() && Fits(arr, frames)
      reads this, machine, machine.ram
    {
      Known(StateSeq())
      && freeFrames == Count(StateSeq(), FREE)
      && lockedFrames == Count(StateSeq(), LOCKED)
      && reservedFrames == Count(StateSeq(), RESERVED)
    }

    method SetFrameState(index: nat, s: State)
      requires Ready() && index < frames
      modifies machine.ram
      ensures Ready() && StateSeq() == old(StateSeq())[index := s] && AddrSeq() == old(AddrSeq())
      ensures SameExcept(old(machine.Mem()), machine.Mem(), ArrayFrames(arr, frames))
    {
      hide Direct, States, Addrs, SameExcept, Maps, WriteState, SlotFrame, StateIndex;
      ghost var m := machine.Mem();
      var f := SlotFrame(arr, frames, index);
      SlotInArray(arr, frames, index);
      DirectMaps(m, machine.cr3, ArrayFrames(arr, frames), f);
      var w := machine.Load(f, StateIndex(index));
      WriteStateByte(w, s);
      machine.Store(f, StateIndex(index), WriteState(w, s));
      StoreState(m, arr, frames, index, WriteState(w, s));
      DirectKept(m, machine.Mem(), machine.cr3, ArrayFrames(arr, frames));
    }

    method GetFrameState(index: nat) returns (s: State)
      requires Ready() && index < frames
      ensures s == StateSeq()[index]
    {
      var f := SlotFrame(arr, frames, index);
      DirectMaps(machine.Mem(), machine.cr3, ArrayFrames(arr, frames), f);
      var w := machine.Load(f, StateIndex(index));
      s := w % 256;
    }

    method GetFrameAddr(index: nat) returns (a: Word)
      requires Ready() && index < frames
      ensures a == AddrSeq()[index]
    {
      var f := SlotFrame(arr, frames, index);
      DirectMaps(machine.Mem(), machine.cr3, ArrayFrames(arr, frames), f);
      a := machine.Load(f, AddrIndex(index));
    }

    method LockFrame(index: nat)
      requires Ready() && Counted() && index < frames
      modifies machine.ram, `freeFrames, `lockedFrames
      ensures Ready() && Counted()
      ensures StateSeq() == Step(old(StateSeq()), Lock(index)) && AddrSeq() == old(AddrSeq())
      ensures StateSeq() == if old(StateSeq())[index] == 0 then old(StateSeq())[index := 1] else old(StateSeq())
      ensures freeFrames == Count(StateSeq(), 0) && lockedFrames == Count(StateSeq(), 1)
        && reservedFrames == Count(StateSeq(), 2)
      ensures lockedFrames == old(lockedFrames) + if old(StateSeq())[index] == FREE then 1 else 0
      ensures SameExcept(old(machine.Mem()), machine.Mem(), ArrayFrames(arr, frames))
    {
      hide Count, States, Addrs, Direct, SameExcept, ArrayFrames, Known;
      SameExceptRefl(machine.Mem(), ArrayFrames(arr, frames));
      var state := GetFrameState(index);
      if state == FREE {
        CountsAfter(StateSeq(), index, LOCKED);
        freeFrames := freeFrames - 1;
        lockedFrames := lockedFrames + 1;
        SetFrameState(index, LOCKED);
      }
    }

    method FreeFrame(index: nat)
      requires Ready() && Counted() && index < frames
      modifies machine.ram, `freeFrames, `lockedFrames
      ensures Ready() && Counted()
      ensures StateSeq() == Step(old(StateSeq()), Free(index)) && AddrSeq() == old(AddrSeq())
      ensures StateSeq() == if old(StateSeq())[index] == 1 then old(StateSeq())[index := 0] else old(StateSeq())
      ensures freeFrames == Count(StateSeq(), 0) && lockedFrames == Count(StateSeq(), 1)
        && reservedFrames == Count(StateSeq(), 2)
      ensures SameExcept(old(machine.Mem()), machine.Mem(), ArrayFrames(arr, frames))
    {
      hide Count, States, Addrs, Direct, SameExcept, ArrayFrames, Known;
      SameExceptRefl(machine.Mem(), ArrayFrames(arr, frames));
      var state := GetFrameState(index);
      if state == LOCKED {
        CountsAfter(StateSeq(), index, FREE);
        freeFrames := freeFrames + 1;
        lockedFrames := lockedFrames - 1;
        SetFrameState(index, FREE);
      }
    }

    method ReserveFrame(index: nat)
      requires Ready() && Counted() && index < frames
      modifies machine.ram, `freeFrames, `reservedFrames
      ensures Ready() && Counted()
      ensures StateSeq() == Step(old(StateSeq()), Reserve(index)) && AddrSeq() == old(AddrSeq())
      ensures StateSeq() == if old(StateSeq())[index] == 0 then old(StateSeq())[index := 2] else old(StateSeq())
      ensures freeFrames == Count(StateSeq(), 0) && lockedFrames == Count(StateSeq(), 1)
        && reservedFrames == Count(StateSeq(), 2)
      ensures SameExcept(old(machine.Mem()), machine.Mem(), ArrayFrames(arr, frames))
    {
      hide Count, States, Addrs, Direct, SameExcept, ArrayFrames, Known;
      SameExceptRefl(machine.Mem(), ArrayFrames(arr, frames));
      var state := GetFrameState(index);
      if state == FREE {
        CountsAfter(StateSeq(), index, RESERVED);
        freeFrames := freeFrames - 1;
        reservedFrames := reservedFrames + 1;
        SetFrameState(index, RESERVED);
      }
    }

    method UnreserveFrame(index: nat)
      requires Ready() && Counted() && index < frames
      modifies machine.ram, `freeFrames, `reservedFrames
      ensures Ready() && Counted()
      ensures StateSeq() == Step(old(StateSeq()), Unreserve(index)) && AddrSeq() == old(AddrSeq())
      ensures StateSeq() == if old(StateSeq())[index] == 2 then old(StateSeq())[index := 0] else old(StateSeq())
      ensures freeFrames == Count(StateSeq(), 0) && lockedFrames == Count(StateSeq(), 1)
        && reservedFrames == Count(StateSeq(), 2)
      ensures SameExcept(old(machine.Mem()), machine.Mem(), ArrayFrames(arr, frames))
    {
      hide Count, States, Addrs, Direct, SameExcept, ArrayFrames, Known;
      SameExceptRefl(machine.Mem(), ArrayFrames(arr, frames));
      var state := GetFrameState(index);
      if state == RESERVED {
        CountsAfter(StateSeq(), index, FREE);
        freeFrames := freeFrames + 1;
        reservedFrames := reservedFrames - 1;
        SetFrameState(index, FREE);
      }
    }

    /** pmem_request_frame: the address of the lowest free frame, which becomes locked; 0 if none is free. */
    method RequestFrame() returns (addr: Word)
      requires Ready() && Counted()
      modifies machine.ram, `freeFrames, `lockedFrames
      ensures Ready() && Counted()
      ensures StateSeq() == Step(old(StateSeq()), Request) && AddrSeq() == old(AddrSeq())
      ensures freeFrames == Count(StateSeq(), 0) && lockedFrames == Count(StateSeq(), 1)
        && reservedFrames == Count(StateSeq(), 2)
      ensures addr == Requested(old(AddrSeq()), old(StateSeq()))
      ensures lockedFrames == old(lockedFrames) + if FirstFree(old(StateSeq())) < frames then 1 else 0
      ensures SameExcept(old(machine.Mem()), machine.Mem(), ArrayFrames(arr, frames))
    {
      hide Count, States, Addrs, Known, Direct, SameExcept, Fits, Step, FirstFree;
      SameExceptRefl(machine.Mem(), ArrayFrames(arr, frames));
      NoneFree(StateSeq());
      RequestIsLock(StateSeq());
      if freeFrames == 0 {
        return 0;
      }
      var i := 0;
      while i < frames
        invariant i <= FirstFree(StateSeq()) && i <= frames
        invariant machine.Mem() == old(machine.Mem()) && Counted()
        invariant freeFrames == old(freeFrames) && lockedFrames == old(lockedFrames)
      {
        var s := GetFrameState(i);
        if s == FREE {
          LockFrame(i);
          addr := GetFrameAddr(i);
          return;
        }
        i := i + 1;
      }
      assert false;
    }

    /** The index of the frame that holds the address, or -1. */
    method GetFrameIndexByPtr(ptr: Word) returns (index: Word)
      requires Ready() && frames <= 0x100_0000_0000
      requires forall i :: 0 <= i < frames ==> AddrSeq()[i] < 0x10_0000_0000_0000
      ensures if index == 0xFFFF_FFFF_FFFF_FFFF then forall i :: 0 <= i < frames ==> !Holds(AddrSeq()[i], ptr)
              else index < frames && Holds(AddrSeq()[index], ptr)
                   && forall i :: 0 <= i < index ==> !Holds(AddrSeq()[i], ptr)
    {
      hide States, Addrs, Direct, Holds;
      var i := 0;
      while i < frames
        invariant i <= frames
        invariant forall j :: 0 <= j < i ==> !Holds(AddrSeq()[j], ptr)
      {
        var p1 := GetFrameAddr(i);
        if Holds(p1, ptr) {
          return i;
        }
        i := i + 1;
      }
      return NOT_FOUND;
    }

    // -------------------------------------------------------------- initialisation

    function GetFramesArraySz(): nat
      reads `frames
    {
      frames * 8 * 16
    }

    lemma LockedPages()
      ensures GetFramesArraySz() / PAGE_SZ == frames / 32
    {
    }

    /** Every structure of the array zeroed and its state set to free. */
    method ZeroArray()
      requires Ready()
      modifies machine.ram
      ensures Ready() && forall i :: 0 <= i < frames ==> StateSeq()[i] == FREE
      ensures SameExcept(old(machine.Mem()), machine.Mem(), ArrayFrames(arr, frames))
    {
      hide States, Addrs, Direct, SameExcept, ArrayFrames;
      SameExceptRefl(machine.Mem(), ArrayFrames(arr, frames));
      var i := 0;
      while i < frames
        invariant i <= frames && Ready()
        invariant forall j :: 0 <= j < i ==> StateSeq()[j] == FREE
        invariant SameExcept(old(machine.Mem()), machine.Mem(), ArrayFrames(arr, frames))
      {
        ghost var m := machine.Mem();
        ZeroStructure(i);
        ghost var k := machine.Mem();
        SetFrameState(i, FREE);
        SameExceptTrans(m, k, machine.Mem(), ArrayFrames(arr, frames));
        SameExceptTrans(old(machine.Mem()), m, machine.Mem(), ArrayFrames(arr, frames));
        i := i + 1;
      }
    }

    /** memset(&array[i], 0, sizeof(PageFrame)) */
    method ZeroStructure(i: nat)
      requires Ready() && i < frames
      modifies machine.ram
      ensures Ready() && StateSeq() == old(StateSeq())[i := 0] && AddrSeq() == old(AddrSeq())[i := 0]
      ensures SameExcept(old(machine.Mem()), machine.Mem(), ArrayFrames(arr, frames))
    {
      SetFrameAddr(i, 0);
      ghost var m := machine.Mem();
      var f := SlotFrame(arr, frames, i);
      DirectMaps(machine.Mem(), machine.cr3, ArrayFrames(arr, frames), f);
      machine.Store(f, StateIndex(i), 0);
      StoreState(m, arr, frames, i, 0);
      DirectKept(m, machine.Mem(), machine.cr3, ArrayFrames(arr, frames));
    }

    method SetFrameAddr(i: nat, a: Word)
      requires Ready() && i < frames
      modifies machine.ram
      ensures Ready() && StateSeq() == old(StateSeq()) && AddrSeq() == old(AddrSeq())[i := a]
      ensures SameExcept(old(machine.Mem()), machine.Mem(), ArrayFrames(arr, frames))
    {
      ghost var m := machine.Mem();
      var f := SlotFrame(arr, frames, i);
      DirectMaps(machine.Mem(), machine.cr3, ArrayFrames(arr, frames), f);
      machine.Store(f, AddrIndex(i), a);
      StoreAddr(m, arr, frames, i, a);
      DirectKept(m, machine.Mem(), machine.cr3, ArrayFrames(arr, frames));
    }

    /** The inner loop: the pages of one descriptor. */
    method FillRegion(i: nat, first: nat) returns (frameId: nat)
      requires Ready() && Counted() && WellFormedMap(memoryMap) && frames == TotalPages(memoryMap)
      requires i < |memoryMap| && first == Start(memoryMap, i)
      requires FilledTo(memoryMap, AddrSeq(), StateSeq(), first)
      modifies machine.ram, `freeFrames, `reservedFrames
      ensures Ready() && Counted() && frameId == Start(memoryMap, i + 1)
      ensures FilledTo(memoryMap, AddrSeq(), StateSeq(), frameId)
      ensures SameExcept(old(machine.Mem()), machine.Mem(), ArrayFrames(arr, frames))
    {
      hide Count, States, Addrs, SameExcept, FrameList, KindList, Direct;
      var d := memoryMap[i];
      StartInRange(memoryMap, i);
      StartStep(memoryMap, i);
      SameExceptRefl(machine.Mem(), ArrayFrames(arr, frames));
      frameId := first;
      var n := 0;
      while n < d.pages
        invariant n <= d.pages && frameId == first + n && Ready() && Counted()
        invariant FilledTo(memoryMap, AddrSeq(), StateSeq(), frameId)
        invariant SameExcept(old(machine.Mem()), machine.Mem(), ArrayFrames(arr, frames))
      {
        ghost var m := machine.Mem();
        FillFrame(i, n, frameId);
        SameExceptTrans(old(machine.Mem()), m, machine.Mem(), ArrayFrames(arr, frames));
        frameId := frameId + 1;
        n := n + 1;
      }
    }

    /** The body of the inner loop. */
    method FillFrame(i: nat, n: nat, frameId: nat)
      requires Ready() && Counted() && WellFormedMap(memoryMap) && frames == TotalPages(memoryMap)
      requires i < |memoryMap| && n < memoryMap[i].pages && frameId == Start(memoryMap, i) + n < frames
      requires FilledTo(memoryMap, AddrSeq(), StateSeq(), frameId)
      modifies machine.ram, `freeFrames, `reservedFrames
      ensures Ready() && Counted() && FilledTo(memoryMap, AddrSeq(), StateSeq(), frameId + 1)
      ensures AddrSeq()[frameId] == memoryMap[i].base + 4096 * n
      ensures var kind := memoryMap[i].kind;
        StateSeq()[frameId] == if kind == 3 || kind == 4 || kind == 7 then 0 else 2
      ensures SameExcept(old(machine.Mem()), machine.Mem(), ArrayFrames(arr, frames))
    {
      hide Count, States, Addrs, SameExcept, FrameList, KindList, Direct, FilledTo, Step, WellFormedMap, Start,
           TotalPages, Known, Fits, ArrayFrames;
      var d := memoryMap[i];
      MapAligned(memoryMap, i);
      ghost var m := machine.Mem();
      FilledStep(memoryMap, AddrSeq(), StateSeq(), i, n, d.base + n * PAGE_SZ);
      SetFrameAddr(frameId, d.base + n * PAGE_SZ);
      if d.kind != EFI_CONVENTIONAL_MEMORY && d.kind != EFI_BOOT_SERVICES_CODE && d.kind != EFI_BOOT_SERVICES_DATA {
        ghost var k := machine.Mem();
        ReserveFrame(frameId);
        SameExceptTrans(m, k, machine.Mem(), ArrayFrames(arr, frames));
      }
      FilledPage(memoryMap, AddrSeq(), StateSeq(), i, n);
    }

    /** The outer loop; returns the index of the first frame of the region the array was placed in. */
    method FillFromMap(buffer: nat, ghost d: nat) returns (arrayFrameId: nat)
      requires Ready() && Counted() && WellFormedMap(memoryMap) && frames == TotalPages(memoryMap)
      requires forall i :: 0 <= i < frames ==> StateSeq()[i] == FREE
      requires d < |memoryMap| && memoryMap[d].base == buffer
      modifies machine.ram, `freeFrames, `reservedFrames
      ensures Ready() && Counted() && arrayFrameId == Start(memoryMap, d)
      ensures FilledTo(memoryMap, AddrSeq(), StateSeq(), frames)
      ensures SameExcept(old(machine.Mem()), machine.Mem(), ArrayFrames(arr, frames))
    {
      hide Count, States, Addrs, SameExcept, FrameList, KindList, Direct, FilledTo, Start, TotalPages, WellFormedMap,
           Fits, Known, ArrayFrames;
      SameExceptRefl(machine.Mem(), ArrayFrames(arr, frames));
      StartEnds(memoryMap);
      NothingFilled(memoryMap, AddrSeq(), StateSeq());
      var frameId := 0;
      arrayFrameId := 0;
      var i := 0;
      while i < |memoryMap|
        invariant i <= |memoryMap| && frameId == Start(memoryMap, i) && Ready() && Counted()
        invariant FilledTo(memoryMap, AddrSeq(), StateSeq(), frameId)
        invariant d < i ==> arrayFrameId == Start(memoryMap, d)
        invariant SameExcept(old(machine.Mem()), machine.Mem(), ArrayFrames(arr, frames))
      {
        if memoryMap[i].base == buffer {
          BasesDistinct(memoryMap, i, d);
          arrayFrameId := frameId;
        }
        ghost var m := machine.Mem();
        frameId := FillRegion(i, frameId);
        SameExceptTrans(old(machine.Mem()), m, machine.Mem(), ArrayFrames(arr, frames));
        i := i + 1;
      }
    }

    /** The final loop: lock the first size/FRAME_SZ frames of the array's region. */
    method LockArray(arrayFrameId: nat)
      requires Ready() && Counted() && arrayFrameId + frames / 32 <= frames
      modifies machine.ram, `freeFrames, `lockedFrames
      ensures Ready() && Counted() && AddrSeq() == old(AddrSeq())
      ensures RangeLocked(old(StateSeq()), StateSeq(), arrayFrameId, arrayFrameId + frames / 32)
      ensures SameExcept(old(machine.Mem()), machine.Mem(), ArrayFrames(arr, frames))
    {
      hide Count, States, Addrs, SameExcept, Direct, Step, RangeLocked, Fits, Known, GetFramesArraySz, ArrayFrames;
      LockedPages();
      SameExceptRefl(machine.Mem(), ArrayFrames(arr, frames));
      NothingLocked(StateSeq(), arrayFrameId);
      var i := 0;
      while i < GetFramesArraySz() / PAGE_SZ
        invariant i <= frames / 32 && Ready() && Counted() && AddrSeq() == old(AddrSeq())
        invariant RangeLocked(old(StateSeq()), StateSeq(), arrayFrameId, arrayFrameId + i)
        invariant SameExcept(old(machine.Mem()), machine.Mem(), ArrayFrames(arr, frames))
      {
        ghost var m := machine.Mem();
        RangeLockedStep(old(StateSeq()), StateSeq(), arrayFrameId, arrayFrameId + i);
        LockFrame(arrayFrameId + i);
        SameExceptTrans(old(machine.Mem()), m, machine.Mem(), ArrayFrames(arr, frames));
        i := i + 1;
      }
    }

    /** The loop that sets every frame free, with the counters init gave before it. */
    method FreeAll()
      requires Ready() && freeFrames == frames && lockedFrames == 0 && reservedFrames == 0
      modifies machine.ram
      ensures Ready() && Counted() && forall i :: 0 <= i < frames ==> StateSeq()[i] == FREE
      ensures SameExcept(old(machine.Mem()), machine.Mem(), ArrayFrames(arr, frames))
    {
      hide Count, States, Addrs, SameExcept, Direct;
      ZeroArray();
      AllFreeCounts(StateSeq());
    }

    /** Reserves the frame with the stack, which must be found, or the lookup's -1 would be an index. */
    method ReserveStack()
      requires Ready() && Counted() && WellFormedMap(memoryMap) && frames == TotalPages(memoryMap)
      requires StackMapped(memoryMap, stack)
      requires FilledTo(memoryMap, AddrSeq(), StateSeq(), frames)
      modifies machine.ram, `freeFrames, `reservedFrames
      ensures Ready() && Counted() && AddrSeq() == old(AddrSeq())
      ensures StackReserved(memoryMap, stack, old(StateSeq()), StateSeq())
      ensures SameExcept(old(machine.Mem()), machine.Mem(), ArrayFrames(arr, frames))
    {
      hide Count, States, Addrs, SameExcept, Direct, FrameList, KindList, Holds, FilledTo, StackReserved,
           StackMapped, Step;
      MapFitsMemory(memoryMap);
      FilledAddrs(memoryMap, AddrSeq(), StateSeq());
      var stackFrame := GetFrameIndexByPtr(stack);
      StackLookup(memoryMap, AddrSeq(), StateSeq(), stack, stackFrame, stackFrame != NOT_FOUND);
      ReserveFrame(stackFrame);
    }

    /** From all frames free to the initial states: the map, the stack, the array itself. */
    method Populate(buffer: nat, ghost d: nat)
      requires Ready() && Counted() && WellFormedMap(memoryMap) && frames == TotalPages(memoryMap)
      requires forall i :: 0 <= i < frames ==> StateSeq()[i] == FREE
      requires HostsArray(memoryMap, d) && memoryMap[d].base == buffer && StackMapped(memoryMap, stack)
      modifies machine.ram, `freeFrames, `reservedFrames, `lockedFrames
      ensures Ready() && Counted()
      ensures InitialAddrs(memoryMap, AddrSeq()) && InitialStates(memoryMap, d, stack, StateSeq())
      ensures SameExcept(old(machine.Mem()), machine.Mem(), ArrayFrames(arr, frames))
    {
      hide Count, States, Addrs, SameExcept, Direct, FrameList, KindList, FilledTo, StackReserved, RangeLocked,
           InitialAddrs, InitialStates, Known, WellFormedMap, Fits, TotalPages, LocksStayInArray, StackMapped, Start,
           ArrayFrames;
      ghost var m0, fs := machine.Mem(), ArrayFrames(arr, frames);
      LocksStay(memoryMap, d);
      var arrayFrameId := FillFromMap(buffer, d);
      ghost var m1, s1 := machine.Mem(), StateSeq();
      ReserveStack();
      ghost var m2, s2 := machine.Mem(), StateSeq();
      SameExceptTrans(m0, m1, m2, fs);
      LockArray(arrayFrameId);
      SameExceptTrans(m0, m2, machine.Mem(), fs);
      PhasesGiveInitial(memoryMap, d, stack, AddrSeq(), s1, s2, StateSeq());
    }

    /** The assignments that open PhysicalMemory__init. */
    method PlaceArray(buffer: nat, ghost d: nat)
      requires machine.Valid() && machine.cr3 == None && WellFormedMap(memoryMap)
      requires HostsArray(memoryMap, d) && memoryMap[d].base == buffer
      modifies this
      ensures arr == buffer / PAGE_SZ && frames == TotalPages(memoryMap) && initialized == old(initialized) && Ready()
      ensures freeFrames == frames && lockedFrames == 0 && reservedFrames == 0
    {
      ArrayFits(memoryMap, d);
      hide FrameList, Direct;
      arr := buffer / PAGE_SZ;
      frames := GetNumberOfPageFrames(memoryMap);
      freeFrames := frames;
      lockedFrames := 0;
      reservedFrames := 0;
      PagingOffIsDirect(machine.Mem(), ArrayFrames(arr, frames));
    }

    /** PhysicalMemory__init on a buffer that starts conventional region d of the map. */
    method Init(buffer: nat, ghost d: nat)
      requires machine.Valid() && machine.cr3 == None && WellFormedMap(memoryMap)
      requires HostsArray(memoryMap, d) && memoryMap[d].base == buffer
      requires StackMapped(memoryMap, stack)
      modifies machine.ram, this
      ensures old(initialized) ==> machine.Mem() == old(machine.Mem()) && unchanged(this)
      ensures !old(initialized) ==> Initialized(d)
      ensures !old(initialized) ==>
        freeFrames == Count(StateSeq(), 0) && lockedFrames == Count(StateSeq(), 1)
        && reservedFrames == Count(StateSeq(), 2)
      ensures !old(initialized) ==> forall j :: 0 <= j < frames ==>
        var kind := KindList(memoryMap)[j];
        StateSeq()[j] == if (kind != 3 && kind != 4 && kind != 7) || FrameList(memoryMap)[j] == stack / 4096 then 2
                         else if Start(memoryMap, d) <= j < Start(memoryMap, d) + frames / 32 then 1 else 0
      ensures !old(initialized) ==> SameExcept(old(machine.Mem()), machine.Mem(), ArrayFrames(arr, frames))
    {
      hide Count, States, Addrs, SameExcept, Direct, FrameList, KindList, InitialAddrs, InitialStates, WellFormedMap,
           Fits, LocksStayInArray, StackMapped, Known, TotalPages, ArrayFrames;
      if initialized {
        return;
      }
      ghost var m := machine.Mem();
      PlaceArray(buffer, d);
      FreeAll();
      ghost var k := machine.Mem();
      Populate(buffer, d);
      SameExceptTrans(m, k, machine.Mem(), ArrayFrames(arr, frames));
      initialized := true;
      InitialStatesExact(memoryMap, d, stack, StateSeq());
    }

    /** init_physical_memory: the array goes to the largest conventional region. */
    method InitPhysicalMemory()
      requires machine.Valid() && machine.cr3 == None && WellFormedMap(memoryMap) && !initialized
      requires StackMapped(memoryMap, stack)
      requires forall d: nat :: LargestConventional(memoryMap, |memoryMap|, d) ==> HostsArray(memoryMap, d)
      requires !NoConventional(memoryMap, |memoryMap|)
      modifies machine.ram, this
      ensures exists d: nat :: LargestConventional(memoryMap, |memoryMap|, d) && Initialized(d)
      ensures SameExcept(old(machine.Mem()), machine.Mem(), ArrayFrames(arr, frames))
    {
      var size, seg := GetLargestFreeMemSeg(memoryMap);
      ghost var d: nat :| LargestConventional(memoryMap, |memoryMap|, d) && seg.value == memoryMap[d].base;
      Init(seg.value, d);
    }

    /** The state that init leaves with the array in region d. */
    ghost predicate Initialized(d: nat)
      reads this, machine, machine.ram
    {
      initialized && d < |memoryMap| && arr == memoryMap[d].base / PAGE_SZ && frames == TotalPages(memoryMap)
      && Ready() && Counted()
      && InitialAddrs(memoryMap, AddrSeq()) && InitialStates(memoryMap, d, stack, StateSeq())
    }
  }

  lemma {:induction false} RequestIsLock(s: seq<State>)
    ensures Step(s, Request) == if FirstFree(s) < |s| then Step(s, Lock(FirstFree(s))) else s
  {
    hide FirstFree;
  }

  /** The three counts after one frame changes its state. */
  lemma CountsAfter(s: seq<State>, i: nat, y: State)
    requires Known(s) && i < |s| && y <= RESERVED
    ensures Known(s[i := y])
    ensures Count(s[i := y], FREE) + (if s[i] == FREE then 1 else 0) == Count(s, FREE) + if y == FREE then 1 else 0
    ensures Count(s[i := y], LOCKED) + (if s[i] == LOCKED then 1 else 0)
            == Count(s, LOCKED) + if y == LOCKED then 1 else 0
    ensures Count(s[i := y], RESERVED) + (if s[i] == RESERVED then 1 else 0)
            == Count(s, RESERVED) + if y == RESERVED then 1 else 0
  {
    CountUpdate(s, i, y, FREE);
    CountUpdate(s, i, y, LOCKED);
    CountUpdate(s, i, y, RESERVED);
  }

  lemma {:induction false} AllFreeCounts(s: seq<State>)
    requires forall i :: 0 <= i < |s| ==> s[i] == FREE
    ensures Known(s) && Count(s, FREE) == |s| && Count(s, LOCKED) == 0 && Count(s, RESERVED) == 0
  {
    CountUniform(s, FREE, FREE);
    CountUniform(s, FREE, LOCKED);
    CountUniform(s, FREE, RESERVED);
  }
}

/**
 * `process_load` of `kernel/process/process.c`: parse, allocate, map, copy and zero-fill.
 * The image is a value: it sits in frames that the allocator never hands out.
 */
module ProcessLoader {
  import opened PageTables
  import opened FrameAllocator
  import opened Paging
  import opened VirtualMemory
  import opened PhysicalBytes
  import opened Iwbf
  import opened LoadedPrograms

  // ---- Writing physical bytes ----

  /** Every frame of the byte range is there and holds no table. */
  ghost predicate DataRange(mem: Memory, owner: map<nat, Owner>, phys: nat, n: nat) {
    forall a: nat {:trigger a / PAGE} :: phys <= a < phys + n ==> a / PAGE in mem && a / PAGE !in owner
  }

  /** `memcpy` into the direct map. */
  method CopyIn(mmu: Mmu, phys: nat, bytes: seq<Byte>)
    requires mmu.Valid() && DataRange(mmu.mem, mmu.owner, phys, |bytes|)
    modifies mmu`mem
    ensures mmu.Valid() && Written(old(mmu.mem), mmu.mem, phys, bytes)
  {
    ghost var mem0 := mmu.mem;
    for i := 0 to |bytes|
      invariant mmu.Valid() && Written(mem0, mmu.mem, phys, bytes[..i])
    {
      ghost var mem1 := mmu.mem;
      assert (phys + i) / PAGE in mem0;
      StoreByte(mmu, phys + i, bytes[i]);
      WrittenNext(mem0, mem1, mmu.mem, phys, bytes, i);
    }
    assert bytes[..|bytes|] == bytes;
  }

  method StoreByte(mmu: Mmu, a: nat, b: Byte)
    requires mmu.Valid() && a / PAGE in mmu.mem && a / PAGE !in mmu.owner
    modifies mmu`mem
    ensures mmu.Valid() && mmu.mem == old(mmu.mem)[a / PAGE := FrameWith(old(mmu.mem), a, b)]
  {
    ghost var f, d := a / PAGE, FrameWith(mmu.mem, a, b);
    DataSound(mmu.mem, mmu.pmm.bm.bits, mmu.kernelPd, mmu.view.Keys, mmu.owner, mmu.ready, f, d);
    DataRefines(mmu.mem, mmu.pmm.bm.bits, mmu.kernelPd, mmu.owner, mmu.ready, mmu.view, f, d);
    mmu.mem := mmu.mem[a / PAGE := FrameWith(mmu.mem, a, b)];
  }

  lemma WrittenNext(mem0: Memory, mem1: Memory, mem2: Memory, phys: nat, bytes: seq<Byte>, i: nat)
    requires i < |bytes| && Written(mem0, mem1, phys, bytes[..i]) && (phys + i) / PAGE in mem1
    requires mem2 == mem1[(phys + i) / PAGE := FrameWith(mem1, phys + i, bytes[i])]
    ensures Written(mem0, mem2, phys, bytes[..i + 1])
  {
    forall a: nat {:trigger ByteAt(mem2, a)} | a / PAGE in mem0
      ensures a / PAGE in mem2 && ByteAt(mem2, a) == if phys <= a < phys + (i + 1) then bytes[..i + 1][a - phys] else ByteAt(mem0, a)
    {
      StoreByteAt(mem1, phys + i, bytes[i], a);
    }
    assert mem2.Keys == mem1.Keys;
  }

  lemma WrittenTwice(mem0: Memory, mem1: Memory, mem2: Memory, phys: nat, first: seq<Byte>, second: seq<Byte>)
    requires Written(mem0, mem1, phys, first) && Written(mem1, mem2, phys + |first|, second)
    ensures Written(mem0, mem2, phys, first + second)
  {
    forall a: nat {:trigger ByteAt(mem2, a)} | a / PAGE in mem0
      ensures a / PAGE in mem2
      ensures ByteAt(mem2, a) == if phys <= a < phys + |first + second| then (first + second)[a - phys] else ByteAt(mem0, a)
    {
      assert a / PAGE in mem1.Keys && a / PAGE in mem2.Keys;
      assert ByteAt(mem1, a) == if phys <= a < phys + |first| then first[a - phys] else ByteAt(mem0, a);
    }
  }

  /** The copy of the file bytes and the zero fill behind them. */
  method FillSegment(mmu: Mmu, phys: nat, image: seq<Byte>, s: Segment)
    requires mmu.Valid() && InImage(image, s) && DataRange(mmu.mem, mmu.owner, phys, s.memSize)
    modifies mmu`mem
    ensures mmu.Valid() && Written(old(mmu.mem), mmu.mem, phys, Bytes(image, s))
  {
    ghost var mem0 := mmu.mem;
    var file := image[s.fileOff..s.fileOff + s.fileSize];
    var zeros: seq<Byte> := seq(s.memSize - s.fileSize, _ => 0);
    CopyIn(mmu, phys, file);
    ghost var mem1 := mmu.mem;
    assert mem1.Keys == mem0.Keys;
    CopyIn(mmu, phys + s.fileSize, zeros);
    WrittenTwice(mem0, mem1, mmu.mem, phys, file, zeros);
    assert file + zeros == Bytes(image, s);
  }

  // ---- The loader ----

  ghost function WorldOf(vmm: Vmm): World
    reads vmm, vmm.mmu, vmm.mmu.pmm, vmm.mmu.pmm.bm
  {
    World(vmm.mmu.mem, vmm.mmu.view, vmm.mmu.pmm.bm.bits, vmm.mmu.owner, vmm.spaces)
  }

  /** Frames for data: the allocator's change keeps the machine valid because nobody owns them. */
  method AllocData(vmm: Vmm, pages: nat) returns (r: Frames)
    requires vmm.Valid() && pages < FrameAllocator.WORD
    modifies vmm.mmu.pmm, vmm.mmu.pmm.bm`bits, vmm.mmu.pmm.bm.data
    ensures vmm.Valid()
    ensures r == NoFrames(FrameAllocator.InvalidArgument) <==> pages == 0
    ensures r.NoFrames? ==> WorldOf(vmm) == old(WorldOf(vmm))
    ensures r.Run? ==> r.addr % PAGE == 0 && pages > 0 && r.addr / PAGE + pages <= 0x3_0000
    ensures r.Run? ==> FirstRun(old(vmm.mmu.pmm.bm.bits), 0, LowEnd(vmm.mmu.pmm.bm.nbits), pages, r.addr / PAGE)
    ensures r.NoFrames? && pages > 0 ==> NoRun(old(vmm.mmu.pmm.bm.bits), 0, LowEnd(vmm.mmu.pmm.bm.nbits), pages)
    ensures r.Run? ==> WorldOf(vmm) == WithRun(old(WorldOf(vmm)), r.addr / PAGE, pages, true)
  {
    var mmu := vmm.mmu;
    ghost var used := mmu.pmm.bm.bits;
    r := mmu.pmm.AllocLowmem(pages);
    assert forall f :: f in mmu.owner ==> Allocated(used, f);
    UsedSound(mmu.mem, used, mmu.pmm.bm.bits, mmu.kernelPd, mmu.view.Keys, mmu.owner, mmu.ready);
  }

  /** Gives data frames back; the machine stays valid because none of them holds a table. */
  method FreeData(vmm: Vmm, phys: nat, pages: nat)
    requires vmm.Valid() && phys < LOWMEM_LIMIT && phys % PAGE == 0 && 0 < pages < FrameAllocator.WORD
    requires RunUsed(vmm.mmu.pmm.bm.bits, phys / PAGE, pages)
    requires forall f: nat :: phys / PAGE <= f < phys / PAGE + pages ==> f !in vmm.mmu.owner
    modifies vmm.mmu.pmm, vmm.mmu.pmm.bm`bits, vmm.mmu.pmm.bm.data
    ensures vmm.Valid() && WorldOf(vmm) == WithRun(old(WorldOf(vmm)), phys / PAGE, pages, false)
  {
    var mmu := vmm.mmu;
    ghost var used := mmu.pmm.bm.bits;
    var r := mmu.pmm.Free(phys, pages);
    assert AddrToFrame(phys) == phys / PAGE;
    assert forall f :: f in mmu.owner ==> Allocated(used, f);
    UsedSound(mmu.mem, used, mmu.pmm.bm.bits, mmu.kernelPd, mmu.view.Keys, mmu.owner, mmu.ready);
  }

  /** Table frames are in use. */
  lemma OwnersUsed(vmm: Vmm)
    requires vmm.Valid()
    ensures OwnersIn(vmm.mmu.owner, vmm.mmu.pmm.bm.bits)
  {
    assert forall f :: f in vmm.mmu.owner ==> Allocated(vmm.mmu.pmm.bm.bits, f);
  }

  /** The call of `vm_map` for the segment, whose frames have been taken. */
  method MapHere(vmm: Vmm, pd: nat, s: Segment, addr: nat, haveNode: bool) returns (r: Result, ghost at: nat, ghost done: nat)
    requires vmm.Valid() && pd in vmm.spaces && s.vaddr < ADDRESSES && 0 < s.memSize / PAGE
    requires addr % PAGE == 0 && addr / PAGE + s.memSize / PAGE <= 0x3_0000
    modifies vmm, vmm.mmu`mem, vmm.mmu`view, vmm.mmu`owner, vmm.mmu.pmm, vmm.mmu.pmm.bm`bits, vmm.mmu.pmm.bm.data
    ensures vmm.Valid() && pd in vmm.spaces
    ensures r == Failed(BadArgument) ==> !SegmentFits(s)
    ensures r == Ok ==> MapDone(old(WorldOf(vmm)), WorldOf(vmm), pd, s, addr / PAGE, at)
    ensures r != Ok ==> MapFailed(old(WorldOf(vmm)), WorldOf(vmm), pd, s, addr / PAGE, done)
    ensures r != Ok ==> (done > 0 <==> Starts(old(WorldOf(vmm)), pd, s, haveNode))
  {
    ghost var w0 := WorldOf(vmm);
    var n;
    r, n, at := vmm.Map(pd, s.vaddr, addr, s.memSize, SegmentFlags(s.flags), haveNode);
    done := n;
    NothingBeside(w0.view, vmm.mmu.view, pd, s.vaddr / PAGE, done, ToFrames(addr / PAGE, SegmentFlags(s.flags)));
  }

  lemma NothingBeside(view: View, view': View, pd: nat, first: nat, n: nat, c: Change)
    requires RangeChanged(view, view', pd, first, n, c) && pd in view && (n > 0 ==> first + n <= KERNEL_PAGES)
    ensures pd in view' && SpaceChanged(view[pd], view'[pd], first, n, c)
    ensures forall p :: p in view && p != pd ==> p in view' && view'[p] == view[p]
  {
    forall p | p in view ensures p in view' && (p != pd ==> view'[p] == view[p]) {
      assert p in view'.Keys;
      if p != pd {
        assert forall v: nat :: v < PAGES ==> view'[p][v] == Changed(view, pd, first, n, c, p, v);
      }
    }
  }

  /** Maps the segment to the frames just taken at `addr`, and gives them back when that fails; `w0` is before they were taken. */
  method MapFresh(vmm: Vmm, pd: nat, s: Segment, addr: nat, haveNode: bool, ghost w0: World)
    returns (r: Result, ghost at: nat, ghost done: nat)
    requires vmm.Valid() && pd in vmm.spaces && s.vaddr < ADDRESSES && 0 < s.memSize / PAGE
    requires addr % PAGE == 0 && addr / PAGE + s.memSize / PAGE <= 0x3_0000
    requires RunFree(w0.used, addr / PAGE, s.memSize / PAGE) && OwnersIn(w0.owner, w0.used)
    requires WorldOf(vmm) == WithRun(w0, addr / PAGE, s.memSize / PAGE, true)
    modifies vmm, vmm.mmu`mem, vmm.mmu`view, vmm.mmu`owner, vmm.mmu.pmm, vmm.mmu.pmm.bm`bits, vmm.mmu.pmm.bm.data
    ensures vmm.Valid() && pd in vmm.spaces
    ensures r == Failed(BadArgument) ==> !SegmentFits(s)
    ensures r == Ok ==> MapDone(old(WorldOf(vmm)), WorldOf(vmm), pd, s, addr / PAGE, at)
    ensures r != Ok ==> Undone(w0, WorldOf(vmm), pd, s, addr / PAGE, done)
    ensures r != Ok ==> (done > 0 <==> Starts(old(WorldOf(vmm)), pd, s, haveNode))
  {
    r, at, done := MapHere(vmm, pd, s, addr, haveNode);
    if r != Ok {
      GiveBack(vmm, pd, s, addr, w0, done);
    }
  }

  ghost predicate OwnersIn(owner: map<nat, Owner>, used: seq<bool>) {
    forall f :: f in owner ==> f < |used| && used[f]
  }

  lemma RunTaken(w0: World, w1: World, pd: nat, s: Segment, g: nat, done: nat)
    requires RunFree(w0.used, g, s.memSize / PAGE) && OwnersIn(w0.owner, w0.used)
    requires MapFailed(WithRun(w0, g, s.memSize / PAGE, true), w1, pd, s, g, done)
    ensures RunUsed(w1.used, g, s.memSize / PAGE) && forall f: nat :: g <= f < g + s.memSize / PAGE ==> f !in w1.owner
  {
    RunHeld(w0.used, w1.used, w0.owner, w1.owner, pd, g, s.memSize / PAGE);
  }

  /** After a failed mapping the frames go back. */
  method GiveBack(vmm: Vmm, pd: nat, s: Segment, addr: nat, ghost w0: World, ghost done: nat)
    requires vmm.Valid() && pd in vmm.spaces && addr % PAGE == 0 && 0 < s.memSize / PAGE && addr / PAGE + s.memSize / PAGE <= 0x3_0000
    requires RunFree(w0.used, addr / PAGE, s.memSize / PAGE) && OwnersIn(w0.owner, w0.used)
    requires MapFailed(WithRun(w0, addr / PAGE, s.memSize / PAGE, true), WorldOf(vmm), pd, s, addr / PAGE, done)
    modifies vmm.mmu.pmm, vmm.mmu.pmm.bm`bits, vmm.mmu.pmm.bm.data
    ensures vmm.Valid() && Undone(w0, WorldOf(vmm), pd, s, addr / PAGE, done)
  {
    ghost var w1 := WorldOf(vmm);
    RunTaken(w0, w1, pd, s, addr / PAGE, done);
    FreeData(vmm, addr, s.memSize / PAGE);
    UndoneFrom(w0, w1, WorldOf(vmm), pd, s, addr / PAGE, done);
  }

  /** Allocation and mapping: the frames go back when the mapping fails. */
  method MapSegment(vmm: Vmm, pd: nat, s: Segment, haveNode: bool) returns (r: Result, addr: nat, ghost at: nat, ghost done: nat)
    requires vmm.Valid() && pd in vmm.spaces && s.vaddr < ADDRESSES && s.memSize < ADDRESSES
    modifies vmm, vmm.mmu`mem, vmm.mmu`view, vmm.mmu`owner, vmm.mmu.pmm, vmm.mmu.pmm.bm`bits, vmm.mmu.pmm.bm.data
    ensures vmm.Valid() && pd in vmm.spaces
    ensures r == Failed(BadArgument) ==> !SegmentFits(s)
    ensures r == Ok ==> addr % PAGE == 0 && RunFree(old(vmm.mmu.pmm.bm.bits), addr / PAGE, s.memSize / PAGE)
    ensures r == Ok ==> addr / PAGE + s.memSize / PAGE <= 0x3_0000
    ensures r == Ok ==> MapDone(WithRun(old(WorldOf(vmm)), addr / PAGE, s.memSize / PAGE, true), WorldOf(vmm), pd, s, addr / PAGE, at)
    ensures r != Ok ==> Undone(old(WorldOf(vmm)), WorldOf(vmm), pd, s, addr / PAGE, done)
    ensures r != Ok ==> (done > 0 <==> LeavesPages(old(WorldOf(vmm)), pd, s, haveNode, addr / PAGE))
    ensures TakesFirst(old(vmm.mmu.pmm.bm.bits), s.memSize / PAGE, addr / PAGE)
  {
    ghost var w0 := WorldOf(vmm);
    OwnersUsed(vmm);
    addr, at, done := 0, 0, 0;
    var a := AllocData(vmm, s.memSize / PAGE);
    if a.NoFrames? {
      r := Failed(if a.error == InvalidArgument then BadArgument else NoMemory);
      NothingDone(w0, pd, s);
      return;
    }
    addr := a.addr;
    r, at, done := MapFresh(vmm, pd, s, addr, haveNode, w0);
  }

  /** `g` is the lowest run of `n` low frames, if there is one. */
  ghost predicate TakesFirst(used: seq<bool>, n: nat, g: nat) {
    n > 0 && !NoRun(used, 0, LowEnd(|used|), n) ==> FirstRun(used, 0, LowEnd(|used|), n, g)
  }

  lemma NothingDone(w: World, pd: nat, s: Segment)
    requires pd in w.view && pd in w.spaces && Ram(w.mem, |w.used|)
    ensures Undone(w, w, pd, s, 0, 0)
  {
  }

  /** The body of the segment loop after the checks; `stray` pages are left behind by a failure. */
  method LoadSegment(vmm: Vmm, pd: nat, image: seq<Byte>, s: Segment, haveNode: bool) returns (r: Result, ghost g: nat, ghost stray: nat)
    requires vmm.Valid() && pd in vmm.spaces && InImage(image, s) && s.vaddr < ADDRESSES && s.memSize < ADDRESSES
    modifies vmm, vmm.mmu`mem, vmm.mmu`view, vmm.mmu`owner, vmm.mmu.pmm, vmm.mmu.pmm.bm`bits, vmm.mmu.pmm.bm.data
    ensures vmm.Valid() && pd in vmm.spaces
    ensures r == Failed(BadArgument) ==> !SegmentFits(s)
    ensures Since(old(WorldOf(vmm)), WorldOf(vmm), pd, vmm.mmu.kernelPd)
    ensures r == Ok ==> PlacedIn(WorldOf(vmm), pd, image, s, g) && RunFree(old(vmm.mmu.pmm.bm.bits), g, s.memSize / PAGE)
    ensures TakesFirst(old(vmm.mmu.pmm.bm.bits), s.memSize / PAGE, g)
    ensures r == Ok && Isolated(old(WorldOf(vmm))) ==> Isolated(WorldOf(vmm))
    ensures r != Ok ==> Undone(old(WorldOf(vmm)), WorldOf(vmm), pd, s, g, stray)
    ensures r != Ok ==> (stray > 0 <==> LeavesPages(old(WorldOf(vmm)), pd, s, haveNode, g))
    ensures r != Ok && Isolated(old(WorldOf(vmm))) ==> (Isolated(WorldOf(vmm)) <==> stray == 0)
  {
    ghost var w0 := WorldOf(vmm);
    OwnersUsed(vmm);
    var addr; ghost var at;
    r, addr, at, stray := MapSegment(vmm, pd, s, haveNode);
    g := addr / PAGE;
    ghost var w1 := WorldOf(vmm);
    if r != Ok {
      AfterFailure(w0, w1, pd, vmm.mmu.kernelPd, s, g, stray);
      return;
    }
    FillMapped(vmm, pd, image, s, addr, w0, at);
  }

  method FillWorld(vmm: Vmm, phys: nat, image: seq<Byte>, s: Segment)
    requires vmm.Valid() && InImage(image, s) && DataRange(vmm.mmu.mem, vmm.mmu.owner, phys, s.memSize)
    modifies vmm.mmu`mem
    ensures vmm.Valid() && WorldOf(vmm) == old(WorldOf(vmm)).(mem := vmm.mmu.mem)
    ensures Written(old(vmm.mmu.mem), vmm.mmu.mem, phys, Bytes(image, s))
  {
    FillSegment(vmm.mmu, phys, image, s);
  }

  /** Copying and zero-filling the segment just mapped. */
  method FillMapped(vmm: Vmm, pd: nat, image: seq<Byte>, s: Segment, addr: nat, ghost w0: World, ghost at: nat)
    requires vmm.Valid() && pd in vmm.spaces && InImage(image, s) && addr % PAGE == 0 && OwnersIn(w0.owner, w0.used)
    requires RunFree(w0.used, addr / PAGE, s.memSize / PAGE) && addr / PAGE + s.memSize / PAGE <= 0x3_0000
    requires MapDone(WithRun(w0, addr / PAGE, s.memSize / PAGE, true), WorldOf(vmm), pd, s, addr / PAGE, at)
    modifies vmm.mmu`mem
    ensures vmm.Valid() && Since(w0, WorldOf(vmm), pd, vmm.mmu.kernelPd)
    ensures PlacedIn(WorldOf(vmm), pd, image, s, addr / PAGE) && (Isolated(w0) ==> Isolated(WorldOf(vmm)))
  {
    ghost var w1, g := WorldOf(vmm), addr / PAGE;
    RunIsThere(w0, w1, pd, s, g, at);
    assert addr == g * PAGE;
    FillWorld(vmm, addr, image, s);
    AfterLoad(w0, w1, WorldOf(vmm), pd, vmm.mmu.kernelPd, image, s, g, at);
  }

  lemma AfterFailure(w0: World, w1: World, pd: nat, kpd: nat, s: Segment, g: nat, stray: nat)
    requires Undone(w0, w1, pd, s, g, stray) && pd != kpd
    ensures Since(w0, w1, pd, kpd) && (Isolated(w0) ==> (Isolated(w1) <==> stray == 0))
  {
    UndoneSince(w0, w1, pd, kpd, s, g, stray);
    if Isolated(w0) { UndoneIsolated(w0, w1, pd, kpd, s, g, stray); }
  }

  lemma AfterLoad(w0: World, w1: World, w2: World, pd: nat, kpd: nat, image: seq<Byte>, s: Segment, g: nat, at: nat)
    requires Loads(w0, w1, w2, pd, image, s, g, at) && pd != kpd
    ensures Since(w0, w2, pd, kpd) && PlacedIn(w2, pd, image, s, g) && (Isolated(w0) ==> Isolated(w2))
  {
    LoadsSince(w0, w1, w2, pd, kpd, image, s, g, at);
    NewPlaced(w0, w1, w2, pd, image, s, g, at);
    if Isolated(w0) { LoadsIsolated(w0, w1, w2, pd, image, s, g, at); }
  }

  lemma RunIsThere(w0: World, w1: World, pd: nat, s: Segment, g: nat, at: nat)
    requires RunFree(w0.used, g, s.memSize / PAGE) && OwnersIn(w0.owner, w0.used)
    requires MapDone(WithRun(w0, g, s.memSize / PAGE, true), w1, pd, s, g, at)
    ensures DataRange(w1.mem, w1.owner, g * PAGE, s.memSize)
  {
    var n := s.memSize / PAGE;
    RunHeld(w0.used, w1.used, w0.owner, w1.owner, pd, g, n);
    forall a: nat {:trigger a / PAGE} | g * PAGE <= a < g * PAGE + s.memSize
      ensures a / PAGE in w1.mem && a / PAGE !in w1.owner
    {
      assert g <= a / PAGE < g + n;
    }
  }

  // ---- The whole image ----

  /** The first `n` segments of the image are in place, at the frames given. */
  ghost predicate InPlace(w: World, pd: nat, image: seq<Byte>, frames: seq<nat>, n: nat) {
    && |frames| == n
    && forall i: nat {:trigger SegmentAt(image, i)} :: i < n ==>
         SegmentAt(image, i).Some? && PlacedIn(w, pd, image, SegmentAt(image, i).value, frames[i])
  }

  lemma InPlaceStays(w0: World, w1: World, pd: nat, image: seq<Byte>, frames: seq<nat>, n: nat)
    requires InPlace(w0, pd, image, frames, n) && AllStay(w0, w1)
    ensures InPlace(w1, pd, image, frames, n)
  {
    forall i: nat {:trigger SegmentAt(image, i)} | i < n
      ensures SegmentAt(image, i).Some? && PlacedIn(w1, pd, image, SegmentAt(image, i).value, frames[i])
    {
      assert PlacedIn(w0, pd, image, SegmentAt(image, i).value, frames[i]);
    }
  }

  lemma InPlaceNext(w0: World, w1: World, pd: nat, image: seq<Byte>, frames: seq<nat>, n: nat, g: nat)
    requires InPlace(w0, pd, image, frames, n) && AllStay(w0, w1)
    requires SegmentAt(image, n).Some? && PlacedIn(w1, pd, image, SegmentAt(image, n).value, g)
    ensures InPlace(w1, pd, image, frames + [g], n + 1)
  {
    InPlaceStays(w0, w1, pd, image, frames, n);
  }

  /** Segment `i` of the table can be decoded, lies in the image, and fits user space. */
  ghost predicate SegmentFine(image: seq<Byte>, i: nat) {
    SegmentAt(image, i).Some? && InImage(image, SegmentAt(image, i).value) && SegmentFits(SegmentAt(image, i).value)
  }

  /** An image that is not refused for what it says. */
  ghost predicate WellFormed(image: seq<Byte>) {
    && ParseHeader(image).Some?
    && forall i: nat {:trigger SegmentFine(image, i)} :: i < ParseHeader(image).value.segmentCount ==> SegmentFine(image, i)
  }

  /**
   * The program is in the space: every segment of the table is there, each byte read through
   * translation is the file's byte or the zero behind it, and each has its area.
   */
  ghost predicate HasProgram(m: Snap, image: seq<Byte>, h: Header) {
    forall i: nat {:trigger SegmentIn(m, image, i)} :: i < h.segmentCount ==> SegmentIn(m, image, i)
  }

  /** Descriptor `i` is 16 + 20 * i bytes into the image. */
  ghost predicate SegmentIn(m: Snap, image: seq<Byte>, i: nat) {
    && 16 + 20 * i <= |image| && ParseSegment(image[16 + 20 * i..]).Some?
    && SegmentReadable(m, image, ParseSegment(image[16 + 20 * i..]).value)
  }

  /** Bits 0, 1 and 2 of the flags are read, write and execute; the area is for the user and does not grow. */
  ghost predicate SegmentReadable(m: Snap, image: seq<Byte>, s: Segment) {
    && s.fileSize <= s.memSize && s.fileOff + s.fileSize <= |image|
    && Vma(s.vaddr, s.vaddr + s.memSize, Flags(read := s.flags % 2 == 1, write := s.flags / 2 % 2 == 1, exec := s.flags / 4 % 2 == 1,
                                               user := true, growsDown := false)) in m.vmas
    && forall k: nat {:trigger Reads(m, image, s, k)} :: k < s.memSize ==> Reads(m, image, s, k)
  }

  /** Byte `k` of the segment, through the page tables: the file's, or zero; the user may write it exactly if bit 1 of the flags is set. */
  ghost predicate Reads(m: Snap, image: seq<Byte>, s: Segment, k: nat)
    requires s.fileSize <= s.memSize && s.fileOff + s.fileSize <= |image|
  {
    && (s.vaddr + k) / 4096 < 0x10_0000 && m.space[(s.vaddr + k) / 4096].Some?
    && m.space[(s.vaddr + k) / 4096].value.frame in m.mem
    && ByteAt(m.mem, m.space[(s.vaddr + k) / 4096].value.frame * 4096 + (s.vaddr + k) % 4096)
       == (if k < s.fileSize then image[s.fileOff + k] else 0)
    && m.space[(s.vaddr + k) / 4096].value.user && m.space[(s.vaddr + k) / 4096].value.writable == (s.flags / 2 % 2 == 1)
  }

  lemma PlacedReadable(m: Snap, image: seq<Byte>, s: Segment, f: nat)
    requires Placed(m, image, s, f)
    ensures SegmentReadable(m, image, s)
  {
    forall k: nat {:trigger Reads(m, image, s, k)} | k < s.memSize
      ensures Reads(m, image, s, k)
    {
      PlacedReads(m, image, s, f, k);
      assert (s.vaddr + k) / PAGE == s.vaddr / PAGE + k / PAGE;
    }
  }

  lemma AllReadable(w: World, pd: nat, image: seq<Byte>, frames: seq<nat>, h: Header)
    requires InPlace(w, pd, image, frames, h.segmentCount) && pd in w.view && pd in w.spaces
    ensures HasProgram(SnapIn(w, pd), image, h)
  {
    forall i: nat {:trigger SegmentIn(SnapIn(w, pd), image, i)} | i < h.segmentCount ensures SegmentIn(SnapIn(w, pd), image, i) {
      assert SegmentAt(image, i).Some?;
      PlacedReadable(SnapIn(w, pd), image, SegmentAt(image, i).value, frames[i]);
    }
  }

  /** The processor lets the user reach the page, and write it exactly if bit 1 of the segment's flags is set. */
  ghost predicate Reaches(mem: Memory, pd: nat, s: Segment, v: nat) {
    && pd in mem && v < PAGES && Effective(mem, pd, v).Some?
    && Effective(mem, pd, v).value.user && Effective(mem, pd, v).value.writable == (s.flags / 2 % 2 == 1)
  }

  ghost predicate SegmentReached(mem: Memory, pd: nat, s: Segment) {
    forall v: nat {:trigger Reaches(mem, pd, s, v)} :: s.vaddr / 4096 <= v < s.vaddr / 4096 + s.memSize / 4096 ==> Reaches(mem, pd, s, v)
  }

  ghost predicate SegmentReachedAt(mem: Memory, pd: nat, image: seq<Byte>, i: nat) {
    && 16 + 20 * i <= |image| && ParseSegment(image[16 + 20 * i..]).Some?
    && SegmentReached(mem, pd, ParseSegment(image[16 + 20 * i..]).value)
  }

  ghost predicate ProgramReached(mem: Memory, pd: nat, image: seq<Byte>, h: Header) {
    forall i: nat {:trigger SegmentReachedAt(mem, pd, image, i)} :: i < h.segmentCount ==> SegmentReachedAt(mem, pd, image, i)
  }

  lemma PlacedReached(w: World, kpd: nat, pd: nat, image: seq<Byte>, s: Segment, f: nat)
    requires Sound(w.mem, w.used, kpd, w.view.Keys, w.owner, ENTRIES) && Refines(w.mem, w.view) && pd != kpd
    requires PlacedIn(w, pd, image, s, f) && AllUserTables(w.owner, pd)
    ensures SegmentReached(w.mem, pd, s)
  {
    forall v: nat {:trigger Reaches(w.mem, pd, s, v)} | s.vaddr / PAGE <= v < s.vaddr / PAGE + s.memSize / PAGE
      ensures Reaches(w.mem, pd, s, v)
    {
      assert w.view[pd][v] == Some(Mapping(f + (v - s.vaddr / PAGE), SegmentFlags(s.flags).write, true));
      EffectiveExact(w.mem, w.used, kpd, w.owner, ENTRIES, w.view, pd, v);
      assert Lookup(w.mem, pd, v) == w.view[pd][v];
      TableIsNoDirectory(w.mem, w.used, kpd, w.view.Keys, w.owner, ENTRIES, pd, v / ENTRIES);
    }
  }

  lemma AllReached(w: World, kpd: nat, pd: nat, image: seq<Byte>, frames: seq<nat>, h: Header)
    requires Sound(w.mem, w.used, kpd, w.view.Keys, w.owner, ENTRIES) && Refines(w.mem, w.view) && pd != kpd
    requires InPlace(w, pd, image, frames, h.segmentCount) && AllUserTables(w.owner, pd)
    ensures ProgramReached(w.mem, pd, image, h)
  {
    forall i: nat {:trigger SegmentReachedAt(w.mem, pd, image, i)} | i < h.segmentCount ensures SegmentReachedAt(w.mem, pd, image, i) {
      assert SegmentAt(image, i).Some?;
      PlacedReached(w, kpd, pd, image, SegmentAt(image, i).value, frames[i]);
    }
  }

  /** Pages of the segment that are mapped to free frames. */
  ghost predicate Stray(w: World, pd: nat, s: Segment, g: nat, n: nat) {
    pd in w.view && forall v: nat {:trigger w.view[pd][v]} :: s.vaddr / PAGE <= v < s.vaddr / PAGE + n ==>
      v < PAGES && w.view[pd][v].Some? && w.view[pd][v].value.frame == g + (v - s.vaddr / PAGE)
      && w.view[pd][v].value.frame < |w.used| && !w.used[w.view[pd][v].value.frame]
  }

  lemma UndoneStray(w0: World, w1: World, pd: nat, s: Segment, g: nat, n: nat)
    requires Undone(w0, w1, pd, s, g, n)
    ensures Stray(w1, pd, s, g, n)
  {
  }

  class Process {
    const vmm: Vmm
    const pd: nat
    var created: bool
    var entry: nat

    constructor (vmm: Vmm, pd: nat)
      requires vmm.Valid() && pd in vmm.spaces
      ensures this.vmm == vmm && this.pd == pd && created
    {
      this.vmm, this.pd := vmm, pd;
      created, entry := true, 0;
    }

    /**
     * `haveNode(i)` says whether the heap can supply the area record of segment `i`.  After a failure the first
     * `n` segments are in place and `stray` pages of the next one are left, on free frames.
     */
    method Load(image: seq<Byte>, haveNode: nat -> bool) returns (r: Result, ghost n: nat, ghost stray: nat)
      requires vmm.Valid() && pd in vmm.spaces
      modifies this`entry, vmm, vmm.mmu`mem, vmm.mmu`view, vmm.mmu`owner, vmm.mmu.pmm, vmm.mmu.pmm.bm`bits, vmm.mmu.pmm.bm.data
      ensures vmm.Valid() && pd in vmm.spaces
      ensures created && WellFormed(image) ==> r != Failed(BadArgument)
      ensures r == Ok ==> created && WellFormed(image) && entry == ParseHeader(image).value.entry
      ensures r == Ok ==> ProgramIn(old(WorldOf(vmm)), WorldOf(vmm), pd, vmm.mmu.kernelPd, image)
      ensures r != Ok ==> entry == old(entry) && LoadStopped(old(WorldOf(vmm)), WorldOf(vmm), pd, vmm.mmu.kernelPd, image, n, stray)
    {
      n, stray := 0, 0;
      if |image| == 0 || !created {
        NotStarted(WorldOf(vmm), pd, vmm.mmu.kernelPd, image);
        r := Failed(BadArgument);
        return;
      }
      var start;
      r, start, n, stray := LoadImage(vmm, pd, image, haveNode);
      ghost var w1 := WorldOf(vmm);
      if r == Ok {
        entry := start;
      }
      assert vmm.Valid() && WorldOf(vmm) == w1;
    }
  }

  /** The image is parsed and loaded; `start` is its entry point. */
  method LoadImage(vmm: Vmm, pd: nat, image: seq<Byte>, haveNode: nat -> bool)
    returns (r: Result, start: nat, ghost n: nat, ghost stray: nat)
    requires vmm.Valid() && pd in vmm.spaces
    modifies vmm, vmm.mmu`mem, vmm.mmu`view, vmm.mmu`owner, vmm.mmu.pmm, vmm.mmu.pmm.bm`bits, vmm.mmu.pmm.bm.data
    ensures vmm.Valid() && pd in vmm.spaces
    ensures Since(old(WorldOf(vmm)), WorldOf(vmm), pd, vmm.mmu.kernelPd)
    ensures Isolated(old(WorldOf(vmm))) ==> (Isolated(WorldOf(vmm)) <==> stray == 0)
    ensures WellFormed(image) ==> r != Failed(BadArgument)
    ensures r == Ok ==> WellFormed(image) && start == ParseHeader(image).value.entry
    ensures r == Ok ==> ProgramIn(old(WorldOf(vmm)), WorldOf(vmm), pd, vmm.mmu.kernelPd, image)
    ensures r != Ok ==> LoadStopped(old(WorldOf(vmm)), WorldOf(vmm), pd, vmm.mmu.kernelPd, image, n, stray)
  {
    start, n, stray := 0, 0, 0;
    ghost var w0, kpd := WorldOf(vmm), vmm.mmu.kernelPd;
    var hdr := ParseHeader(image);
    if hdr == None {
      NotStarted(w0, pd, kpd, image);
      r := Failed(BadArgument);
      return;
    }
    ghost var frames, g;
    r, frames, g, n, stray := LoadTable(vmm, pd, image, hdr.value.segmentCount, haveNode);
    if r == Ok {
      Finished(w0, WorldOf(vmm), pd, kpd, image, frames);
      start := hdr.value.entry;
    }
  }

  /**
   * The program is in the space, the user can reach all of it if the space had tables for the user only, nothing
   * else of the machine was disturbed, and every user page still has a frame of its own if it had one.
   */
  ghost predicate ProgramIn(w0: World, w: World, pd: nat, kpd: nat, image: seq<Byte>)
    requires ParseHeader(image).Some?
  {
    && pd in w.view && pd in w.spaces && Since(w0, w, pd, kpd) && (Isolated(w0) ==> Isolated(w))
    && HasProgram(SnapIn(w, pd), image, ParseHeader(image).value)
    && (AllUserTables(w0.owner, pd) ==> ProgramReached(w.mem, pd, image, ParseHeader(image).value))
  }

  /** The first `n` segments are in place, `stray` pages of the next lie on free frames, and nothing else was disturbed. */
  ghost predicate LoadStopped(w0: World, w: World, pd: nat, kpd: nat, image: seq<Byte>, n: nat, stray: nat) {
    exists frames: seq<nat>, g: nat :: Stopped(w0, w, pd, kpd, image, frames, g, n, stray)
  }

  lemma NotStarted(w: World, pd: nat, kpd: nat, image: seq<Byte>)
    ensures LoadStopped(w, w, pd, kpd, image, 0, 0)
  {
    SinceNothing(w, pd, kpd);
    assert Stopped(w, w, pd, kpd, image, [], 0, 0, 0);
  }

  lemma Finished(w0: World, w: World, pd: nat, kpd: nat, image: seq<Byte>, frames: seq<nat>)
    requires Sound(w.mem, w.used, kpd, w.view.Keys, w.owner, ENTRIES) && Refines(w.mem, w.view) && pd != kpd
    requires ParseHeader(image).Some? && pd in w.view && pd in w.spaces
    requires Progress(w0, w, pd, kpd, image, frames, ParseHeader(image).value.segmentCount)
    ensures ProgramIn(w0, w, pd, kpd, image)
  {
    AllReadable(w, pd, image, frames, ParseHeader(image).value);
    if AllUserTables(w0.owner, pd) {
      UserTablesKept(w0.owner, w.owner, pd);
      AllReached(w, kpd, pd, image, frames, ParseHeader(image).value);
    }
  }

  /** `n` segments have been loaded since `w0`. */
  ghost predicate Progress(w0: World, w: World, pd: nat, kpd: nat, image: seq<Byte>, frames: seq<nat>, n: nat) {
    InPlace(w, pd, image, frames, n) && Since(w0, w, pd, kpd) && (Isolated(w0) ==> Isolated(w))
  }

  ghost predicate AllFine(image: seq<Byte>, n: nat) {
    forall i: nat {:trigger SegmentFine(image, i)} :: i < n ==> SegmentFine(image, i)
  }

  /** Where loading has stopped. */
  ghost predicate Stopped(w0: World, w: World, pd: nat, kpd: nat, image: seq<Byte>, frames: seq<nat>, g: nat, n: nat, stray: nat) {
    && Remains(w, pd, image, frames, g, n, stray) && Since(w0, w, pd, kpd)
    && (Isolated(w0) ==> (Isolated(w) <==> stray == 0))
  }

  /** The loop over the segment table. */
  method LoadTable(vmm: Vmm, pd: nat, image: seq<Byte>, count: nat, haveNode: nat -> bool)
    returns (r: Result, ghost frames: seq<nat>, ghost g: nat, ghost n: nat, ghost stray: nat)
    requires vmm.Valid() && pd in vmm.spaces && |image| >= HEADER_SIZE
    modifies vmm, vmm.mmu`mem, vmm.mmu`view, vmm.mmu`owner, vmm.mmu.pmm, vmm.mmu.pmm.bm`bits, vmm.mmu.pmm.bm.data
    ensures vmm.Valid() && pd in vmm.spaces
    ensures r == Ok ==> Progress(old(WorldOf(vmm)), WorldOf(vmm), pd, vmm.mmu.kernelPd, image, frames, count) && AllFine(image, count)
    ensures r == Ok ==> stray == 0
    ensures r != Ok ==> Stopped(old(WorldOf(vmm)), WorldOf(vmm), pd, vmm.mmu.kernelPd, image, frames, g, n, stray)
    ensures r == Failed(BadArgument) ==> !AllFine(image, count)
  {
    ghost var w0, kpd := WorldOf(vmm), vmm.mmu.kernelPd;
    SinceNothing(w0, pd, kpd);
    frames, g, n, stray, r := [], 0, 0, 0, Ok;
    var i := 0;
    while i < count
      invariant 0 <= i <= count && vmm.Valid() && pd in vmm.spaces && r == Ok && n == i && stray == 0
      invariant HEADER_SIZE + SEGMENT_SIZE * i <= |image| && AllFine(image, i)
      invariant Progress(w0, WorldOf(vmm), pd, kpd, image, frames, i)
    {
      r, g, stray := LoadNext(vmm, pd, image, i, haveNode(i), w0, frames);
      if r != Ok {
        return;
      }
      frames, stray := frames + [g], 0;
      i, n := i + 1, i + 1;
    }
  }

  /** Decoding and the checks before anything is allocated. */
  method ReadSegment(image: seq<Byte>, i: nat) returns (seg: Option<Segment>)
    requires HEADER_SIZE + SEGMENT_SIZE * i <= |image|
    ensures seg == None ==> !SegmentFine(image, i)
    ensures seg.Some? ==> SegmentAt(image, i) == seg && InImage(image, seg.value) && HEADER_SIZE + SEGMENT_SIZE * (i + 1) <= |image|
    ensures seg.Some? ==> seg.value.vaddr < ADDRESSES && seg.value.memSize < ADDRESSES
  {
    var segOff := HEADER_SIZE + SEGMENT_SIZE * i;
    seg := ParseSegment(image[segOff..]);
    if seg == None {
      return;
    }
    var s := seg.value;
    SegmentAccepted(image[segOff..]);
    if s.fileSize > s.memSize || s.fileOff > |image| || s.fileSize > |image| - s.fileOff {
      seg := None;
    }
  }

  /** One round of that loop. */
  method LoadNext(vmm: Vmm, pd: nat, image: seq<Byte>, i: nat, haveNode: bool, ghost w0: World, ghost frames: seq<nat>)
    returns (r: Result, ghost g: nat, ghost stray: nat)
    requires vmm.Valid() && pd in vmm.spaces && HEADER_SIZE + SEGMENT_SIZE * i <= |image|
    requires Progress(w0, WorldOf(vmm), pd, vmm.mmu.kernelPd, image, frames, i)
    modifies vmm, vmm.mmu`mem, vmm.mmu`view, vmm.mmu`owner, vmm.mmu.pmm, vmm.mmu.pmm.bm`bits, vmm.mmu.pmm.bm.data
    ensures vmm.Valid() && pd in vmm.spaces
    ensures r == Ok ==> HEADER_SIZE + SEGMENT_SIZE * (i + 1) <= |image| && SegmentFine(image, i)
    ensures r == Ok ==> Progress(w0, WorldOf(vmm), pd, vmm.mmu.kernelPd, image, frames + [g], i + 1)
    ensures r != Ok ==> Stopped(w0, WorldOf(vmm), pd, vmm.mmu.kernelPd, image, frames, g, i, stray)
    ensures r == Failed(BadArgument) ==> !SegmentFine(image, i)
  {
    g, stray := 0, 0;
    ghost var w, kpd := WorldOf(vmm), vmm.mmu.kernelPd;
    var seg := ReadSegment(image, i);
    if seg == None {
      r := Failed(BadArgument);
      return;
    }
    var s := seg.value;
    r, g, stray := LoadSegment(vmm, pd, image, s, haveNode);
    if r == Ok {
      NextLoaded(w0, w, WorldOf(vmm), pd, kpd, image, frames, i, s, g);
    } else {
      NextStopped(w0, w, WorldOf(vmm), pd, kpd, image, frames, i, s, g, stray);
    }
  }

  lemma NextLoaded(w0: World, w: World, w1: World, pd: nat, kpd: nat, image: seq<Byte>, frames: seq<nat>, n: nat, s: Segment, g: nat)
    requires Progress(w0, w, pd, kpd, image, frames, n) && Since(w, w1, pd, kpd) && SegmentAt(image, n) == Some(s)
    requires PlacedIn(w1, pd, image, s, g) && (Isolated(w) ==> Isolated(w1))
    ensures Progress(w0, w1, pd, kpd, image, frames + [g], n + 1)
  {
    SinceTwice(w0, w, w1, pd, kpd);
    InPlaceNext(w, w1, pd, image, frames, n, g);
  }

  lemma NextStopped(w0: World, w: World, w1: World, pd: nat, kpd: nat, image: seq<Byte>, frames: seq<nat>, n: nat, s: Segment,
                    g: nat, stray: nat)
    requires Progress(w0, w, pd, kpd, image, frames, n) && Since(w, w1, pd, kpd) && SegmentAt(image, n) == Some(s)
    requires Undone(w, w1, pd, s, g, stray) && (Isolated(w) ==> (Isolated(w1) <==> stray == 0))
    ensures Stopped(w0, w1, pd, kpd, image, frames, g, n, stray)
  {
    SinceTwice(w0, w, w1, pd, kpd);
    StillRemains(w, w1, pd, image, frames, g, n, s, stray);
  }

  /** The segments before `n`, and stray pages of segment `n`. */
  ghost predicate Remains(w: World, pd: nat, image: seq<Byte>, frames: seq<nat>, g: nat, n: nat, stray: nat) {
    && InPlace(w, pd, image, frames, n)
    && (stray > 0 ==> SegmentAt(image, n).Some? && Stray(w, pd, SegmentAt(image, n).value, g, stray))
  }

  lemma StillRemains(w0: World, w1: World, pd: nat, image: seq<Byte>, frames: seq<nat>, g: nat, n: nat, s: Segment, stray: nat)
    requires InPlace(w0, pd, image, frames, n) && AllStay(w0, w1) && SegmentAt(image, n) == Some(s) && Undone(w0, w1, pd, s, g, stray)
    ensures Remains(w1, pd, image, frames, g, n, stray)
  {
    InPlaceStays(w0, w1, pd, image, frames, n);
    UndoneStray(w0, w1, pd, s, g, stray);
  }
}

/**
 * A load that fails part-way (`kernel/process/process.c`): the frames go back, but `vm_map` leaves the
 * pages it had mapped, which then lie on free frames.
 */
module LoadFailure {
  import opened PageTables
  import opened FrameAllocator
  import opened Paging
  import opened VirtualMemory
  import opened PhysicalBytes
  import opened Iwbf
  import opened LoadedPrograms
  import opened ProcessLoader

  /** Two pages on both sides of a 4 MiB boundary, so that two tables are needed. */
  const Two: Segment := Segment(0x3F_F000, 0, 0, 0x2000, 1)

  /** The only free low frames are the last three. */
  ghost predicate ThreeLeft(used: seq<bool>) {
    var top := LowEnd(|used|);
    top >= 3 && (forall f: nat :: f < top ==> (used[f] <==> f < top - 3))
  }

  /** A space without areas, user pages and private tables. */
  ghost predicate EmptySpace(w: World, pd: nat) {
    && pd in w.view && pd in w.spaces && pd in w.mem && w.spaces[pd] == []
    && NoneMapped(w.view[pd], 0, KERNEL_PAGES) && !Present(w.mem[pd][0]) && !Present(w.mem[pd][1])
  }

  /** Loading the segment would take four frames. */
  lemma NeedsFour(w0: World, w1: World, pd: nat, kpd: nat, image: seq<Byte>, g: nat)
    requires Sound(w0.mem, w0.used, kpd, w0.view.Keys, w0.owner, ENTRIES)
    requires Sound(w1.mem, w1.used, kpd, w1.view.Keys, w1.owner, ENTRIES) && Refines(w1.mem, w1.view)
    requires EmptySpace(w0, pd) && pd != kpd && Since(w0, w1, pd, kpd)
    requires PlacedIn(w1, pd, image, Two, g) && RunFree(w0.used, g, 2)
    ensures !ThreeLeft(w0.used)
  {
    var t0 := TableAt(w0, w1, pd, kpd, 0x3FF);
    var t1 := TableAt(w0, w1, pd, kpd, 0x400);
    assert FrameHeld(w1.mem, w1.used, w1.owner, g) && FrameHeld(w1.mem, w1.used, w1.owner, g + 1);
    assert t0 != t1 && t0 != g && t0 != g + 1 && t1 != g && t1 != g + 1;
    assert g + 1 < 0x3_0000 && !w0.used[g] && !w0.used[g + 1];
  }

  lemma NoTableYet(w: World, pd: nat, kpd: nat, i: nat)
    requires Sound(w.mem, w.used, kpd, w.view.Keys, w.owner, ENTRIES) && pd in w.view && i < ENTRIES && !Present(w.mem[pd][i])
    ensures forall f {:trigger w.owner[f]} :: f in w.owner && w.owner[f].TableIn? && w.owner[f].pd == pd ==> w.owner[f].index != i
  {
    forall f {:trigger w.owner[f]} | f in w.owner && w.owner[f].TableIn? && w.owner[f].pd == pd ensures w.owner[f].index != i {
      assert OwnerOk(w.mem, kpd, w.view.Keys, w.owner, f);
    }
  }

  /** A mapped page has a table; in a space that had none its frame was free. */
  lemma TableAt(w0: World, w1: World, pd: nat, kpd: nat, v: nat) returns (t: nat)
    requires Sound(w0.mem, w0.used, kpd, w0.view.Keys, w0.owner, ENTRIES)
    requires Sound(w1.mem, w1.used, kpd, w1.view.Keys, w1.owner, ENTRIES) && Refines(w1.mem, w1.view)
    requires EmptySpace(w0, pd) && pd != kpd && Since(w0, w1, pd, kpd)
    requires pd in w1.view && v / ENTRIES < 2 && w1.view[pd][v].Some?
    ensures t in w1.owner && w1.owner[t].TableIn? && w1.owner[t].index == v / ENTRIES
    ensures t < |w0.used| && t < 0x3_0000 && !w0.used[t]
  {
    assert Lookup(w1.mem, pd, v) == w1.view[pd][v];
    TableIsNoDirectory(w1.mem, w1.used, kpd, w1.view.Keys, w1.owner, ENTRIES, pd, v / ENTRIES);
    t := FrameOf(w1.mem[pd][v / ENTRIES]);
    assert Allocated(w1.used, t);
    NoTableYet(w0, pd, kpd, v / ENTRIES);
    assert Held(w0.used, w0.owner, t) ==> Held(w1.used, w1.owner, t);
  }

  /** Low memory is used up from below until three frames are left. */
  method UseUp(vmm: Vmm, pd: nat)
    requires vmm.Valid() && EmptySpace(WorldOf(vmm), pd) && LastThreeFree(vmm.mmu.pmm.bm.bits)
    modifies vmm.mmu.pmm, vmm.mmu.pmm.bm`bits, vmm.mmu.pmm.bm.data
    ensures vmm.Valid() && EmptySpace(WorldOf(vmm), pd) && ThreeLeft(vmm.mmu.pmm.bm.bits)
  {
    var top := LowEnd(vmm.mmu.pmm.bm.nbits);
    for f := 0 to top - 3
      invariant vmm.Valid() && EmptySpace(WorldOf(vmm), pd) && LastThreeFree(vmm.mmu.pmm.bm.bits)
      invariant forall g: nat :: g < f ==> vmm.mmu.pmm.bm.bits[g]
    {
      var taken := vmm.mmu.pmm.bm.Test(f);
      if !taken {
        TakeLowest(vmm, pd, f);
      }
    }
  }

  method TakeLowest(vmm: Vmm, pd: nat, f: nat)
    requires vmm.Valid() && EmptySpace(WorldOf(vmm), pd) && LastThreeFree(vmm.mmu.pmm.bm.bits)
    requires f < LowEnd(|vmm.mmu.pmm.bm.bits|) - 3 && !vmm.mmu.pmm.bm.bits[f] && forall g: nat :: g < f ==> vmm.mmu.pmm.bm.bits[g]
    modifies vmm.mmu.pmm, vmm.mmu.pmm.bm`bits, vmm.mmu.pmm.bm.data
    ensures vmm.Valid() && EmptySpace(WorldOf(vmm), pd) && LastThreeFree(vmm.mmu.pmm.bm.bits)
    ensures vmm.mmu.pmm.bm.bits == old(vmm.mmu.pmm.bm.bits)[f := true]
  {
    ghost var used := vmm.mmu.pmm.bm.bits;
    assert RunFree(used, f, 1);
    ghost var w := WorldOf(vmm);
    var a := AllocData(vmm, 1);
    LowestIs(used, f, a.addr / PAGE);
    assert vmm.mmu.pmm.bm.bits == used[f := true] && WorldOf(vmm) == w.(used := vmm.mmu.pmm.bm.bits);
  }

  ghost predicate LastThreeFree(used: seq<bool>) {
    var top := LowEnd(|used|);
    top >= 3 && !used[top - 3] && !used[top - 2] && !used[top - 1]
  }

  lemma LowestBelow(used: seq<bool>, f: nat, g: nat)
    requires RunFree(used, f, 1) && FirstRun(used, 0, LowEnd(|used|), 1, g)
    ensures g <= f
  {
  }

  lemma LowestIs(used: seq<bool>, f: nat, g: nat)
    requires f < LowEnd(|used|) && RunFree(used, f, 1) && forall h: nat :: h < f ==> used[h]
    requires FirstRun(used, 0, LowEnd(|used|), 1, g)
    ensures g == f
  {
    assert !used[g];
  }

  /** With the two data frames taken, one low frame is left for the first table. */
  lemma OneLeft(w: World, pd: nat, g: nat)
    requires EmptySpace(w, pd) && ThreeLeft(w.used) && TakesFirst(w.used, 2, g)
    ensures LeavesPages(w, pd, Two, true, g)
  {
    var top := LowEnd(|w.used|);
    assert RunFree(w.used, top - 3, 2);
    assert !w.used[g];
    var w1 := WithRun(w, g, 2, true);
    assert RunFree(w1.used, top - 1, 1);
  }

  /**
   * On every machine whose last three low frames are free, with one more below: a new process, low memory used up
   * but for the three, and a segment of two pages.  The load fails, and a page of the process lies on a free frame.
   */
  method StrayPage(vmm: Vmm) returns (pd: Option<nat>, r: Result)
    requires vmm.Valid() && LastThreeFree(vmm.mmu.pmm.bm.bits)
    requires exists f: nat :: f < LowEnd(|vmm.mmu.pmm.bm.bits|) - 3 && !vmm.mmu.pmm.bm.bits[f]
    modifies vmm, vmm.mmu`mem, vmm.mmu`view, vmm.mmu`owner, vmm.mmu.pmm, vmm.mmu.pmm.bm`bits, vmm.mmu.pmm.bm.data
    ensures vmm.Valid() && pd.Some? && r != Ok && pd.value in vmm.spaces && pd.value in vmm.mmu.view
    ensures vmm.spaces[pd.value] == [] && vmm.mmu.view[pd.value][0x3FF].Some?
    ensures var f := vmm.mmu.view[pd.value][0x3FF].value.frame; f < |vmm.mmu.pmm.bm.bits| && !vmm.mmu.pmm.bm.bits[f]
  {
    pd := NewSpace(vmm);
    UseUp(vmm, pd.value);
    ghost var w0 := WorldOf(vmm);
    ghost var g, stray;
    r, g, stray := LoadSegment(vmm, pd.value, [], Two, true);
    ghost var w1 := WorldOf(vmm);
    if r == Ok {
      NeedsFour(w0, w1, pd.value, vmm.mmu.kernelPd, [], g);
    }
    OneLeft(w0, pd.value, g);
    UndoneStray(w0, w1, pd.value, Two, g, stray);
  }

  /** A new process takes the lowest free frame. */
  method NewSpace(vmm: Vmm) returns (pd: Option<nat>)
    requires vmm.Valid() && LastThreeFree(vmm.mmu.pmm.bm.bits)
    requires exists f: nat :: f < LowEnd(|vmm.mmu.pmm.bm.bits|) - 3 && !vmm.mmu.pmm.bm.bits[f]
    modifies vmm, vmm.mmu`mem, vmm.mmu`view, vmm.mmu`owner, vmm.mmu.pmm, vmm.mmu.pmm.bm`bits, vmm.mmu.pmm.bm.data
    ensures vmm.Valid() && pd.Some? && EmptySpace(WorldOf(vmm), pd.value) && LastThreeFree(vmm.mmu.pmm.bm.bits)
    ensures pd.value != vmm.mmu.kernelPd
  {
    ghost var used := vmm.mmu.pmm.bm.bits;
    ghost var f: nat :| f < LowEnd(|used|) - 3 && !used[f];
    assert RunFree(used, f, 1);
    pd := vmm.SpaceInit();
    assert pd.Some?;
    LowestBelow(used, f, pd.value);
  }
}

/** The kernel's own mappings (`kernel/mm/kernel_vm.c`). */
module KernelVm {
  import opened PageTables
  import opened FrameAllocator
  import opened Paging

  const KERNEL_OFFSET: nat := 0xC000_0000
  const DIRECT_MAP_SIZE: nat := 0x3000_0000
  const ADDRESSES: nat := 0x1_0000_0000
  const DIRECT_PAGES: nat := 0x3_0000

  /** `vm_kern_range_valid` */
  predicate RangeValid(virt: nat, size: nat) {
    size != 0 && virt >= KERNEL_OFFSET && size - 1 <= ADDRESSES - 1 - virt
  }

  /** The checks accept exactly the non-empty ranges inside the kernel half. */
  lemma RangeValidExact(virt: nat, size: nat)
    requires virt < ADDRESSES
    ensures RangeValid(virt, size) <==> 0 < size && KERNEL_OFFSET <= virt && virt + size <= ADDRESSES
    ensures RangeValid(virt, size) ==> KERNEL_PAGES <= virt / PAGE && virt / PAGE + size / PAGE <= PAGES
  {
  }

  method Map(mmu: Mmu, virt: nat, phys: nat, size: nat, flags: Flags) returns (r: Result, done: nat)
    requires mmu.Valid() && virt < ADDRESSES && size < ADDRESSES
    modifies mmu`mem, mmu`view, mmu`owner, mmu.pmm, mmu.pmm.bm`bits, mmu.pmm.bm.data
    ensures mmu.Valid()
    ensures mmu.owner == old(mmu.owner) && mmu.pmm.bm.bits == old(mmu.pmm.bm.bits)
    ensures RangeChanged(old(mmu.view), mmu.view, mmu.kernelPd, virt / PAGE, done, ToFrames(phys / PAGE, flags))
    ensures done <= size / PAGE && (r != Ok && done > 0 ==> done < size / PAGE)
    ensures !RangeValid(virt, size) ==> r == Failed(BadArgument)
    ensures r == Ok ==> RangeValid(virt, size) && virt % PAGE == 0 && done == size / PAGE
    ensures r == Ok ==> NoneMapped(old(mmu.view)[mmu.kernelPd], virt / PAGE, done)
    ensures RangeValid(virt, size) && virt % PAGE == 0 && phys % PAGE == 0 && size % PAGE == 0 ==>
      (r == Ok <==> NoneMapped(old(mmu.view)[mmu.kernelPd], virt / PAGE, size / PAGE))
    ensures r == Failed(BadArgument) <==> !RangeValid(virt, size) || virt % 4096 != 0 || phys % 4096 != 0 || size % 4096 != 0
    ensures r == Ok || r == Failed(BadArgument) || r == Failed(AlreadyMapped)
  {
    RangeValidExact(virt, size);
    if !RangeValid(virt, size) {
      RangeNothing(mmu.view, mmu.kernelPd, virt / PAGE, ToFrames(phys / PAGE, flags));
      return Failed(BadArgument), 0;
    }
    r, done := mmu.Map(mmu.kernelPd, virt, phys, size, flags);
  }

  method Unmap(mmu: Mmu, virt: nat, size: nat) returns (r: Result, done: nat)
    requires mmu.Valid() && virt < ADDRESSES && size < ADDRESSES
    modifies mmu`mem, mmu`view
    ensures mmu.Valid()
    ensures RangeChanged(old(mmu.view), mmu.view, mmu.kernelPd, virt / PAGE, done, Removed)
    ensures done <= size / PAGE
    ensures !RangeValid(virt, size) ==> r == Failed(BadArgument)
    ensures r == Ok ==> RangeValid(virt, size) && done == size / PAGE
    ensures RangeValid(virt, size) && virt % PAGE == 0 && size % PAGE == 0 ==>
      (r == Ok <==> AllMapped(old(mmu.view)[mmu.kernelPd], virt / PAGE, size / PAGE))
    ensures r == Failed(BadArgument) <==> !RangeValid(virt, size) || virt % 4096 != 0 || size % 4096 != 0
    ensures r == Ok || r == Failed(BadArgument) || r == Failed(NotMapped)
  {
    RangeValidExact(virt, size);
    if !RangeValid(virt, size) {
      RangeNothing(mmu.view, mmu.kernelPd, virt / PAGE, Removed);
      return Failed(BadArgument), 0;
    }
    r, done := mmu.Unmap(mmu.kernelPd, virt, size);
  }

  method Protect(mmu: Mmu, virt: nat, size: nat, flags: Flags) returns (r: Result, done: nat)
    requires mmu.Valid() && virt < ADDRESSES && size < ADDRESSES
    modifies mmu`mem, mmu`view
    ensures mmu.Valid()
    ensures RangeChanged(old(mmu.view), mmu.view, mmu.kernelPd, virt / PAGE, done, Reprotected(flags))
    ensures done <= size / PAGE
    ensures !RangeValid(virt, size) ==> r == Failed(BadArgument)
    ensures r == Ok ==> RangeValid(virt, size) && done == size / PAGE
    ensures RangeValid(virt, size) && virt % PAGE == 0 && size % PAGE == 0 ==>
      (r == Ok <==> AllMapped(old(mmu.view)[mmu.kernelPd], virt / PAGE, size / PAGE))
    ensures r == Failed(BadArgument) <==> !RangeValid(virt, size) || virt % 4096 != 0 || size % 4096 != 0
    ensures r == Ok || r == Failed(BadArgument) || r == Failed(NotMapped)
  {
    RangeValidExact(virt, size);
    if !RangeValid(virt, size) {
      RangeNothing(mmu.view, mmu.kernelPd, virt / PAGE, Reprotected(flags));
      return Failed(BadArgument), 0;
    }
    r, done := mmu.Protect(mmu.kernelPd, virt, size, flags);
  }

  method Translate(mmu: Mmu, virt: nat) returns (phys: Option<nat>)
    requires mmu.Valid() && virt < ADDRESSES
    ensures phys == if virt < KERNEL_OFFSET then None else
      match mmu.view[mmu.kernelPd][virt / PAGE]
      case None => None
      case Some(m) => Some(m.frame * PAGE + virt % PAGE)
  {
    if !RangeValid(virt, 1) {
      return None;
    }
    phys := mmu.Translate(mmu.kernelPd, virt);
  }

  /** The direct map: page `k` above the split is frame `k`; code and constants are not writable. */
  ghost predicate DirectMapped(space: Space, text: (nat, nat), rodata: (nat, nat)) {
    && (forall v :: 0 <= v < KERNEL_PAGES ==> space[v] == None)
    && (forall v :: KERNEL_PAGES <= v < KERNEL_PAGES + DIRECT_PAGES ==>
          space[v] == Some(Mapping(v - KERNEL_PAGES, !(text.0 <= v < text.1 || rodata.0 <= v < rodata.1), false)))
    && (forall v :: KERNEL_PAGES + DIRECT_PAGES <= v < PAGES ==> space[v] == None)
  }

  /** A range of pages, given by byte addresses, inside the direct map. */
  ghost predicate Section(start: nat, end: nat) {
    start % PAGE == 0 && end % PAGE == 0 && KERNEL_OFFSET <= start < end <= KERNEL_OFFSET + DIRECT_MAP_SIZE
  }

  /** `vm_kern_init`.  The sections' bounds come from the linker. */
  method Init(pmm: Pmm, mem: Memory, textStart: nat, textEnd: nat, roStart: nat, roEnd: nat) returns (r: Result, mmu: Mmu?)
    requires pmm.Valid() && Ram(mem, |pmm.bm.bits|)
    requires Section(textStart, textEnd) && Section(roStart, roEnd)
    modifies pmm, pmm.bm`bits, pmm.bm.data
    ensures r != Ok ==> r == Failed(NoMemory) && NoLowFrame(pmm.bm.bits)
    ensures r == Ok ==> mmu != null && fresh(mmu) && mmu.pmm == pmm && mmu.Valid() && mmu.view.Keys == {mmu.kernelPd}
    ensures r == Ok ==> DirectMapped(mmu.view[mmu.kernelPd], (textStart / PAGE, textEnd / PAGE), (roStart / PAGE, roEnd / PAGE))
    ensures r == Ok ==> mmu.kernelPd in mmu.mem && DirectWords(mmu.mem, mmu.kernelPd, textStart, textEnd, roStart, roEnd)
  {
    mmu := null;
    ghost var used := pmm.bm.bits;
    var a := pmm.AllocLowmem(1);
    if a.NoFrames? {
      return Failed(NoMemory), null;
    }
    var f := a.addr / PAGE;
    assert Allocated(pmm.bm.bits, f);
    mmu := new Mmu(pmm, mem[f := Zeros()], f);
    r := mmu.KernelPrepare();
    if r != Ok {
      return;
    }
    r := LayOut(mmu, textStart, textEnd, roStart, roEnd);
    DirectWordsOf(mmu, textStart, textEnd, roStart, roEnd);
  }

  /** Each of the 0x30000 words above 0xC0000000: the frame's address and present, with writable outside the two sections. */
  ghost predicate DirectWords(mem: Memory, kpd: nat, textStart: nat, textEnd: nat, roStart: nat, roEnd: nat)
    requires kpd in mem
  {
    forall k: nat {:trigger WordAt(mem, kpd, 0xC_0000 + k)} :: k < 0x3_0000 ==>
      var a := 0xC000_0000 + 4096 * k;
      WordAt(mem, kpd, 0xC_0000 + k) == 4096 * k + if textStart <= a < textEnd || roStart <= a < roEnd then 1 else 3
  }

  lemma DirectWordsOf(mmu: Mmu, textStart: nat, textEnd: nat, roStart: nat, roEnd: nat)
    requires mmu.Valid() && mmu.kernelPd in mmu.view && Section(textStart, textEnd) && Section(roStart, roEnd)
    requires DirectMapped(mmu.view[mmu.kernelPd], (textStart / PAGE, textEnd / PAGE), (roStart / PAGE, roEnd / PAGE))
    ensures mmu.kernelPd in mmu.mem && DirectWords(mmu.mem, mmu.kernelPd, textStart, textEnd, roStart, roEnd)
  {
    forall k: nat {:trigger WordAt(mmu.mem, mmu.kernelPd, 0xC_0000 + k)} | k < 0x3_0000
      ensures var a := 0xC000_0000 + 4096 * k;
        WordAt(mmu.mem, mmu.kernelPd, 0xC_0000 + k) == 4096 * k + if textStart <= a < textEnd || roStart <= a < roEnd then 1 else 3
    {
      WordExact(mmu.mem, mmu.pmm.bm.bits, mmu.kernelPd, mmu.owner, ENTRIES, mmu.view, mmu.kernelPd, 0xC_0000 + k);
      PageInside(textStart, textEnd, k);
      PageInside(roStart, roEnd, k);
    }
  }

  lemma PageInside(start: nat, end: nat, k: nat)
    requires Section(start, end)
    ensures start / PAGE <= 0xC_0000 + k < end / PAGE <==> start <= 0xC000_0000 + 4096 * k < end
  {
    assert start == start / PAGE * 4096 && end == end / PAGE * 4096;
  }

  /** The permanent layout: the direct map, then read-only code and constants. */
  method LayOut(mmu: Mmu, textStart: nat, textEnd: nat, roStart: nat, roEnd: nat) returns (r: Result)
    requires mmu.Valid() && mmu.view == map[mmu.kernelPd := Empty()]
    requires Section(textStart, textEnd) && Section(roStart, roEnd)
    modifies mmu`mem, mmu`view, mmu`owner, mmu.pmm, mmu.pmm.bm`bits, mmu.pmm.bm.data
    ensures mmu.Valid() && mmu.view.Keys == {mmu.kernelPd} && r == Ok
    ensures DirectMapped(mmu.view[mmu.kernelPd], (textStart / PAGE, textEnd / PAGE), (roStart / PAGE, roEnd / PAGE))
  {
    ghost var v0 := mmu.view;
    MapDirect(mmu);
    ghost var v1 := mmu.view;
    ProtectSection(mmu, textStart, textEnd, Flags(true, false, true, false, false));
    ghost var v2 := mmu.view;
    ProtectSection(mmu, roStart, roEnd, Flags(true, false, false, false, false));
    InitView(v0, v1, v2, mmu.view, mmu.kernelPd, textStart / PAGE, textEnd / PAGE, roStart / PAGE, roEnd / PAGE);
    r := Ok;
  }

  /** The permanent direct map; on the empty kernel space this cannot fail. */
  method MapDirect(mmu: Mmu)
    requires mmu.Valid() && mmu.view == map[mmu.kernelPd := Empty()]
    modifies mmu`mem, mmu`view, mmu`owner, mmu.pmm, mmu.pmm.bm`bits, mmu.pmm.bm.data
    ensures mmu.Valid() && mmu.view.Keys == {mmu.kernelPd}
    ensures RangeChanged(old(mmu.view), mmu.view, mmu.kernelPd, KERNEL_PAGES, DIRECT_PAGES,
                         ToFrames(0, Flags(true, true, false, false, false)))
    ensures AllMapped(mmu.view[mmu.kernelPd], KERNEL_PAGES, DIRECT_PAGES)
  {
    ghost var v0 := mmu.view;
    var r, done := Map(mmu, KERNEL_OFFSET, 0, DIRECT_MAP_SIZE, Flags(true, true, false, false, false));
    MappedInside(v0, mmu.view, mmu.kernelPd, KERNEL_PAGES, DIRECT_PAGES, 0, Flags(true, true, false, false, false));
  }

  /** A section inside the direct map changes its permissions; this cannot fail either. */
  method ProtectSection(mmu: Mmu, start: nat, end: nat, flags: Flags)
    requires mmu.Valid() && Section(start, end) && AllMapped(mmu.view[mmu.kernelPd], KERNEL_PAGES, DIRECT_PAGES)
    modifies mmu`mem, mmu`view
    ensures mmu.Valid() && mmu.view.Keys == old(mmu.view.Keys)
    ensures RangeChanged(old(mmu.view), mmu.view, mmu.kernelPd, start / PAGE, end / PAGE - start / PAGE, Reprotected(flags))
    ensures AllMapped(mmu.view[mmu.kernelPd], KERNEL_PAGES, DIRECT_PAGES)
  {
    ghost var v := mmu.view;
    assert (end - start) / PAGE == end / PAGE - start / PAGE;
    var r, done := Protect(mmu, start, end - start, flags);
    StillMapped(v, mmu.view, mmu.kernelPd, start / PAGE, done, flags, KERNEL_PAGES, DIRECT_PAGES);
  }

  lemma MappedInside(view: View, view': View, pd: nat, first: nat, n: nat, frame: nat, flags: Flags)
    requires RangeChanged(view, view', pd, first, n, ToFrames(frame, flags)) && pd in view && first + n <= PAGES
    ensures pd in view' && AllMapped(view'[pd], first, n)
  {
    forall u: nat | first <= u < first + n ensures view'[pd][u].Some? {
      assert view'[pd][u] == Changed(view, pd, first, n, ToFrames(frame, flags), pd, u);
    }
  }

  /** Changing permissions unmaps nothing. */
  lemma StillMapped(view: View, view': View, pd: nat, first: nat, n: nat, flags: Flags, v: nat, m: nat)
    requires RangeChanged(view, view', pd, first, n, Reprotected(flags)) && pd in view && AllMapped(view[pd], v, m)
    ensures pd in view' && AllMapped(view'[pd], v, m)
  {
    forall u: nat | v <= u < v + m ensures view'[pd][u].Some? {
      assert view'[pd][u] == Changed(view, pd, first, n, Reprotected(flags), pd, u);
    }
  }

  lemma InitView(v0: View, v1: View, v2: View, v3: View, pd: nat, text: nat, textEnd: nat, ro: nat, roEnd: nat)
    requires v0 == map[pd := Empty()]
    requires RangeChanged(v0, v1, pd, KERNEL_PAGES, DIRECT_PAGES, ToFrames(0, Flags(true, true, false, false, false)))
    requires text <= textEnd && ro <= roEnd
    requires KERNEL_PAGES <= text && textEnd <= KERNEL_PAGES + DIRECT_PAGES && KERNEL_PAGES <= ro && roEnd <= KERNEL_PAGES + DIRECT_PAGES
    requires RangeChanged(v1, v2, pd, text, textEnd - text, Reprotected(Flags(true, false, true, false, false)))
    requires RangeChanged(v2, v3, pd, ro, roEnd - ro, Reprotected(Flags(true, false, false, false, false)))
    ensures pd in v3 && DirectMapped(v3[pd], (text, textEnd), (ro, roEnd))
  {
    forall v: nat | v < PAGES
      ensures v3[pd][v] == if KERNEL_PAGES <= v < KERNEL_PAGES + DIRECT_PAGES
        then Some(Mapping(v - KERNEL_PAGES, !(text <= v < textEnd || ro <= v < roEnd), false)) else None
    {
      assert v0[pd][v] == None;
      assert v1[pd][v] == Changed(v0, pd, KERNEL_PAGES, DIRECT_PAGES, ToFrames(0, Flags(true, true, false, false, false)), pd, v);
      assert v2[pd][v] == Changed(v1, pd, text, textEnd - text, Reprotected(Flags(true, false, true, false, false)), pd, v);
    }
  }
}

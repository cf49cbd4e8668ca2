/**
 * The user bit of a page directory entry is set once, when the table is made, and no later
 * mapping or protection adds it (`kernel/arch/x86/mm.c`): a run in which a user area is out of the
 * user's reach.
 */
module UserAccess {
  import opened PageTables
  import opened FrameAllocator
  import opened Paging
  import opened VirtualMemory

  /** A space without areas in which no mapping stopped part-way has no user page. */
  lemma NothingThere(vmm: Vmm, pd: nat)
    requires vmm.Valid() && pd in vmm.spaces && vmm.spaces[pd] == [] && pd !in vmm.torn
    ensures pd in vmm.mmu.view && NoneMapped(vmm.mmu.view[pd], 0, KERNEL_PAGES)
  {
    assert GoodAt(vmm.spaces, vmm.mmu.view, vmm.torn, pd);
    forall v: nat | v < KERNEL_PAGES ensures vmm.mmu.view[pd][v] == None {
      assert !InSome([], v);
    }
  }

  ghost predicate Fitted(before: seq<Vma>, after: seq<Vma>, a: Vma, k: nat) { k <= |before| && after == InsertAt(before, k, a) }
  ghost predicate Inserted(before: seq<Vma>, after: seq<Vma>, a: Vma) { exists k: nat :: Fitted(before, after, a, k) }

  /** One page mapped where nothing is, with a table or a low frame for it. */
  method MapOne(vmm: Vmm, pd: nat, virt: nat, phys: nat, user: bool) returns (r: Result)
    requires vmm.Valid() && pd in vmm.spaces && virt % PAGE == 0 && virt < 0x40_0000 && phys % PAGE == 0 && phys < 0x1_0000_0000
    requires !Overlaps(vmm.spaces[pd], virt, virt + PAGE) && vmm.mmu.view[pd][virt / PAGE] == None
    requires Present(vmm.mmu.mem[pd][0]) || !NoLowFrame(vmm.mmu.pmm.bm.bits)
    modifies vmm, vmm.mmu`mem, vmm.mmu`view, vmm.mmu`owner, vmm.mmu.pmm, vmm.mmu.pmm.bm`bits, vmm.mmu.pmm.bm.data
    ensures vmm.Valid() && r == Ok && pd in vmm.spaces && pd in vmm.mmu.view && pd in vmm.mmu.mem
    ensures Inserted(old(vmm.spaces)[pd], vmm.spaces[pd], Vma(virt, virt + PAGE, Flags(true, true, false, user, false)))
    ensures !Present(old(vmm.mmu.mem)[pd][0]) ==> Present(vmm.mmu.mem[pd][0]) && User(vmm.mmu.mem[pd][0]) == user
    ensures forall v: nat {:trigger vmm.mmu.view[pd][v]} :: v < KERNEL_PAGES && v != virt / PAGE ==> vmm.mmu.view[pd][v] == old(vmm.mmu.view)[pd][v]
    ensures vmm.mmu.view[pd][virt / PAGE].Some? && vmm.mmu.view[pd][virt / PAGE].value.user == user
    ensures UserReaches(old(vmm.mmu.mem), vmm.mmu.mem, pd, virt / PAGE, 1, user)
  {
    assert FirstMaps(vmm.mmu.view, vmm.mmu.mem, vmm.mmu.pmm.bm.bits, pd, virt);
    var done; ghost var at;
    r, done, at := vmm.Map(pd, virt, phys, PAGE, Flags(true, true, false, user, false), true);
    assert Fitted(old(vmm.spaces)[pd], vmm.spaces[pd], Vma(virt, virt + PAGE, Flags(true, true, false, user, false)), at);
    NewEntry(old(vmm.mmu.mem), old(vmm.mmu.pmm.bm.bits), old(vmm.mmu.view).Keys, old(vmm.mmu.owner), vmm.mmu.mem, vmm.mmu.pmm.bm.bits,
             vmm.mmu.view, vmm.mmu.owner, vmm.mmu.kernelPd, pd, virt / PAGE, user);
  }

  /**
   * In a space whose first table does not exist yet, a page mapped without `VM_USER` and then a
   * neighbour mapped with it: the second area is for the user, and the user cannot reach its page.
   */
  method OutOfReach(vmm: Vmm, pd: nat, phys: nat) returns (r: Result)
    requires vmm.Valid() && pd in vmm.spaces && phys % PAGE == 0 && phys < 0x1_0000_0000
    requires vmm.spaces[pd] == [] && pd !in vmm.torn && !Present(vmm.mmu.mem[pd][0]) && !NoLowFrame(vmm.mmu.pmm.bm.bits)
    modifies vmm, vmm.mmu`mem, vmm.mmu`view, vmm.mmu`owner, vmm.mmu.pmm, vmm.mmu.pmm.bm`bits, vmm.mmu.pmm.bm.data
    ensures vmm.Valid() && pd in vmm.spaces && pd in vmm.mmu.mem
    ensures r == Ok && vmm.mmu.view[pd][2].Some? && vmm.mmu.view[pd][2].value.user
    ensures Effective(vmm.mmu.mem, pd, 2).Some? && !Effective(vmm.mmu.mem, pd, 2).value.user
  {
    NothingThere(vmm, pd);
    r := MapOne(vmm, pd, 0x1000, phys, false);
    r := MapOne(vmm, pd, 0x2000, phys, true);
  }
}

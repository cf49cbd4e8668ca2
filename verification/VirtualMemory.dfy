/**
 * Process address spaces (`kernel/mm/vmm.c`): a sorted list of areas per space, kept in
 * step with the page tables.
 *
 * The address-space records are kept in a dictionary keyed by their page directory.
 */
module VirtualMemory {
  import opened PageTables
  import opened FrameAllocator
  import opened Paging
  import KernelVm

  const USER_END: nat := 0xC000_0000
  const ADDRESSES: nat := 0x1_0000_0000
  const PHYS_ADDRESSES: nat := 0x1_0000_0000_0000_0000

  datatype Vma = Vma(start: nat, end: nat, flags: Flags)

  // ---- Argument checks, in 32-bit arithmetic ----

  /** `vm_user_range_valid`; the sum wraps. */
  predicate UserRange(virt: nat, size: nat) {
    && size != 0 && virt < USER_END && size - 1 <= ADDRESSES - 1 - virt
    && (virt + size) % ADDRESSES <= USER_END
  }

  /**
   * The check accepts the ranges inside user space, and also, because the end wraps to zero,
   * those that start in user space and end exactly at 2^32.
   */
  lemma UserRangeExact(virt: nat, size: nat)
    requires virt < ADDRESSES && size < ADDRESSES
    ensures UserRange(virt, size) <==>
      (0 < size && virt + size <= USER_END) || (virt < USER_END && virt + size == ADDRESSES)
  {
  }

  /** The end of a range, in 32 bits. */
  function End32(virt: nat, size: nat): nat
    requires virt < ADDRESSES && size < ADDRESSES
  {
    if virt + size < ADDRESSES then virt + size else virt + size - ADDRESSES
  }

  /** The arguments are 32-bit and not among those that the check wrongly accepts. */
  predicate NoWrap(virt: nat, size: nat) {
    virt < ADDRESSES && size < ADDRESSES && !(virt < USER_END && virt + size == ADDRESSES)
  }

  /** `vm_phys_range_valid` */
  predicate PhysRange(phys: nat, size: nat) { size != 0 && phys + (size - 1) < PHYS_ADDRESSES }

  /** An accepted range that is not in user space. */
  lemma UserRangeWraps()
    ensures UserRange(0xBFFF_F000, 0x4000_1000) && 0xBFFF_F000 + 0x4000_1000 > USER_END
  {
  }

  // ---- Lists of areas ----

  ghost predicate Contains(a: Vma, virt: nat) { a.start <= virt < a.end }

  /** Page-aligned, inside user space, sorted and apart. */
  ghost predicate Sorted(vmas: seq<Vma>) {
    && (forall i :: 0 <= i < |vmas| ==>
          vmas[i].start < vmas[i].end <= USER_END && vmas[i].start % PAGE == 0 && vmas[i].end % PAGE == 0)
    && (forall i, j :: 0 <= i < j < |vmas| ==> vmas[i].end <= vmas[j].start)
  }

  /** `vm_find_vma`: the early exit never hides an area. */
  method Find(vmas: seq<Vma>, virt: nat) returns (found: bool, k: nat)
    requires Sorted(vmas)
    ensures found <==> exists i :: 0 <= i < |vmas| && Contains(vmas[i], virt)
    ensures found ==> k < |vmas| && Contains(vmas[k], virt) && forall i :: 0 <= i < |vmas| && Contains(vmas[i], virt) ==> i == k
  {
    k := 0;
    if virt >= USER_END {
      return false, 0;
    }
    while k < |vmas|
      invariant 0 <= k <= |vmas|
      invariant forall i :: 0 <= i < k ==> !Contains(vmas[i], virt)
    {
      if vmas[k].start > virt {
        return false, 0;
      }
      if vmas[k].start <= virt && virt < vmas[k].end {
        return true, k;
      }
      k := k + 1;
    }
    return false, 0;
  }

  ghost predicate Spans(a: Vma, virt: nat, end: nat) { a.start <= virt && end <= a.end }

  /** `vm_find_vma_range` */
  method FindRange(vmas: seq<Vma>, virt: nat, size: nat) returns (found: bool, k: nat)
    requires Sorted(vmas) && virt < ADDRESSES && size < ADDRESSES
    ensures found <==> UserRange(virt, size) && exists i :: 0 <= i < |vmas| && Spans(vmas[i], virt, End32(virt, size))
    ensures found ==> k < |vmas| && Spans(vmas[k], virt, End32(virt, size))
  {
    if !UserRange(virt, size) {
      return false, 0;
    }
    var end := End32(virt, size);
    k := 0;
    while k < |vmas|
      invariant 0 <= k <= |vmas|
      invariant forall i :: 0 <= i < k ==> !Spans(vmas[i], virt, end)
    {
      if vmas[k].start > virt {
        return false, 0;
      }
      if vmas[k].start <= virt && end <= vmas[k].end {
        return true, k;
      }
      k := k + 1;
    }
    return false, 0;
  }

  ghost predicate Overlaps(vmas: seq<Vma>, virt: nat, end: nat) {
    exists i :: 0 <= i < |vmas| && vmas[i].start < end && virt < vmas[i].end
  }

  /** The place of a new area: before all later ones; none when it overlaps an area. */
  method Place(vmas: seq<Vma>, virt: nat, end: nat) returns (ok: bool, k: nat)
    requires Sorted(vmas)
    ensures ok <==> !Overlaps(vmas, virt, end)
    ensures ok ==> k <= |vmas|
    ensures ok ==> forall i :: 0 <= i < k ==> vmas[i].end <= virt
    ensures ok ==> forall i :: k <= i < |vmas| ==> end <= vmas[i].start
  {
    k := 0;
    while k < |vmas|
      invariant 0 <= k <= |vmas|
      invariant forall i :: 0 <= i < k ==> vmas[i].end <= virt
    {
      if vmas[k].end > virt {
        return vmas[k].start >= end, k;
      }
      k := k + 1;
    }
    return true, k;
  }

  function InsertAt(vmas: seq<Vma>, k: nat, a: Vma): seq<Vma>
    requires k <= |vmas|
  {
    vmas[..k] + [a] + vmas[k..]
  }

  function RemoveAt(vmas: seq<Vma>, k: nat): seq<Vma>
    requires k < |vmas|
  {
    vmas[..k] + vmas[k + 1..]
  }

  lemma InsertSorted(vmas: seq<Vma>, k: nat, a: Vma)
    requires Sorted(vmas) && k <= |vmas|
    requires a.start < a.end <= USER_END && a.start % PAGE == 0 && a.end % PAGE == 0
    requires forall i :: 0 <= i < k ==> vmas[i].end <= a.start
    requires forall i :: k <= i < |vmas| ==> a.end <= vmas[i].start
    ensures Sorted(InsertAt(vmas, k, a))
  {
  }

  lemma RemoveSorted(vmas: seq<Vma>, k: nat)
    requires Sorted(vmas) && k < |vmas|
    ensures Sorted(RemoveAt(vmas, k))
  {
  }

  /** Removing what was inserted gives the list back. */
  lemma RemoveUndoesInsert(vmas: seq<Vma>, k: nat, a: Vma)
    requires k <= |vmas|
    ensures RemoveAt(InsertAt(vmas, k, a), k) == vmas
  {
  }

  // ---- Areas and page tables ----

  ghost predicate InArea(a: Vma, v: nat) { a.start / PAGE <= v < a.end / PAGE }

  /** The page is mapped with the area's permissions. */
  ghost predicate PageHas(space: Space, v: nat, flags: Flags) {
    v < PAGES && space[v].Some? && space[v].value.writable == flags.write && space[v].value.user == flags.user
  }

  /** Every page of every area is mapped, with the permissions of that area. */
  ghost predicate Resident(vmas: seq<Vma>, space: Space) {
    forall i, v: nat {:trigger InArea(vmas[i], v)} :: 0 <= i < |vmas| && InArea(vmas[i], v) ==> PageHas(space, v, vmas[i].flags)
  }

  ghost predicate InSome(vmas: seq<Vma>, v: nat) {
    exists i :: 0 <= i < |vmas| && InArea(vmas[i], v)
  }

  /** Every mapped user page lies in an area. */
  ghost predicate Covered(vmas: seq<Vma>, space: Space) {
    forall v: nat {:trigger InSome(vmas, v)} :: v < KERNEL_PAGES && space[v].Some? ==> InSome(vmas, v)
  }

  /**
   * The processor grants what the area says: writing always; user access exactly if the area is not
   * for the user, or its table was made by a mapping for the user.
   */
  ghost predicate GrantedAt(mem: Memory, owner: map<nat, Owner>, p: nat, v: nat, flags: Flags)
    requires p in mem
  {
    && v < PAGES && Effective(mem, p, v).Some?
    && Effective(mem, p, v).value.writable == flags.write
    && (Effective(mem, p, v).value.user == flags.user <==> (flags.user ==> UserTable(mem, owner, p, v)))
  }

  ghost predicate AreasGranted(mem: Memory, owner: map<nat, Owner>, p: nat, vmas: seq<Vma>)
    requires p in mem
  {
    forall i, v: nat {:trigger InArea(vmas[i], v)} :: 0 <= i < |vmas| && InArea(vmas[i], v) ==>
      GrantedAt(mem, owner, p, v, vmas[i].flags)
  }

  /** The user reaches no page of the kernel half. */
  ghost predicate KernelClosed(mem: Memory, p: nat)
    requires p in mem
  {
    forall v: nat {:trigger Effective(mem, p, v)} :: KERNEL_PAGES <= v < PAGES ==>
      Effective(mem, p, v).Some? ==> !Effective(mem, p, v).value.user
  }

  lemma AreasAreGranted(mem: Memory, used: seq<bool>, kpd: nat, owner: map<nat, Owner>, view: View, p: nat, vmas: seq<Vma>)
    requires Sound(mem, used, kpd, view.Keys, owner, ENTRIES) && Refines(mem, view) && p in view && Resident(vmas, view[p])
    ensures AreasGranted(mem, owner, p, vmas)
  {
    forall i, v: nat {:trigger InArea(vmas[i], v)} | 0 <= i < |vmas| && InArea(vmas[i], v)
      ensures GrantedAt(mem, owner, p, v, vmas[i].flags)
    {
      assert PageHas(view[p], v, vmas[i].flags);
      EffectiveExact(mem, used, kpd, owner, ENTRIES, view, p, v);
    }
  }

  /** A table stays where it is, with the user bit it was made with. */
  lemma TableStays(mem: Memory, used: seq<bool>, dirs: set<nat>, owner: map<nat, Owner>,
                   mem': Memory, used': seq<bool>, dirs': set<nat>, owner': map<nat, Owner>, kpd: nat, pd: nat, i: nat)
    requires Sound(mem, used, kpd, dirs, owner, ENTRIES) && Sound(mem', used', kpd, dirs', owner', ENTRIES)
    requires pd in dirs && pd in dirs' && pd != kpd && i < KERNEL_BASE && Present(mem[pd][i])
    requires TablesGrown(used, used', owner, owner', pd)
    ensures Present(mem'[pd][i]) && FrameOf(mem'[pd][i]) == FrameOf(mem[pd][i]) && User(mem'[pd][i]) == User(mem[pd][i])
  {
    TableIsNoDirectory(mem, used, kpd, dirs, owner, ENTRIES, pd, i);
    var f := FrameOf(mem[pd][i]);
    assert owner'[f] == owner[f] && OwnerOk(mem', kpd, dirs', owner', f);
    TableIsNoDirectory(mem', used', kpd, dirs', owner', ENTRIES, pd, i);
  }

  /** The entry of a table that a mapping makes has the user bit of that mapping. */
  lemma NewEntry(mem: Memory, used: seq<bool>, dirs: set<nat>, owner: map<nat, Owner>,
                 mem': Memory, used': seq<bool>, view': View, owner': map<nat, Owner>, kpd: nat, pd: nat, v: nat, user: bool)
    requires Sound(mem, used, kpd, dirs, owner, ENTRIES) && Sound(mem', used', kpd, view'.Keys, owner', ENTRIES) && Refines(mem', view')
    requires pd in dirs && pd in view' && pd != kpd && v < KERNEL_PAGES && view'[pd][v].Some?
    requires TablesGrown(used, used', owner, owner', pd) && TablesFor(owner, owner', user)
    ensures !Present(mem[pd][v / ENTRIES]) ==> Present(mem'[pd][v / ENTRIES]) && User(mem'[pd][v / ENTRIES]) == user
  {
    assert Lookup(mem', pd, v) == view'[pd][v];
    if !Present(mem[pd][v / ENTRIES]) {
      NewTable(mem, used, dirs, owner, mem', used', view'.Keys, owner', kpd, pd, v / ENTRIES);
      TableIsNoDirectory(mem', used', kpd, view'.Keys, owner', ENTRIES, pd, v / ENTRIES);
    }
  }

  /**
   * The user gets at exactly the pages of the range whose directory entry was absent before, or was there with the
   * user bit, and at those only if the flags say so.
   */
  ghost predicate UserReaches(mem: Memory, mem': Memory, pd: nat, first: nat, n: nat, user: bool)
    requires pd in mem && pd in mem'
  {
    forall v: nat {:trigger Effective(mem', pd, v)} :: first <= v < first + n && v < PAGES ==>
      && Effective(mem', pd, v).Some?
      && (Effective(mem', pd, v).value.user <==> user && (Present(mem[pd][v / ENTRIES]) ==> User(mem[pd][v / ENTRIES])))
  }

  /** Tables came by a mapping with this user flag only, so the state before decides. */
  lemma ReachDecided(mem: Memory, used: seq<bool>, dirs: set<nat>, owner: map<nat, Owner>,
                     mem': Memory, used': seq<bool>, view': View, owner': map<nat, Owner>, kpd: nat, pd: nat, first: nat, n: nat, user: bool)
    requires Sound(mem, used, kpd, dirs, owner, ENTRIES) && Sound(mem', used', kpd, view'.Keys, owner', ENTRIES) && Refines(mem', view')
    requires pd in dirs && pd in view' && pd != kpd && first + n <= KERNEL_PAGES
    requires TablesGrown(used, used', owner, owner', pd) && TablesFor(owner, owner', user)
    requires forall v: nat {:trigger view'[pd][v]} :: first <= v < first + n ==> view'[pd][v].Some? && view'[pd][v].value.user == user
    ensures UserReaches(mem, mem', pd, first, n, user)
  {
    forall v: nat {:trigger Effective(mem', pd, v)} | first <= v < first + n
      ensures Effective(mem', pd, v).Some?
      ensures Effective(mem', pd, v).value.user <==> user && (Present(mem[pd][v / ENTRIES]) ==> User(mem[pd][v / ENTRIES]))
    {
      var i := v / ENTRIES;
      assert Lookup(mem', pd, v) == view'[pd][v];
      if Present(mem[pd][i]) {
        TableStays(mem, used, dirs, owner, mem', used', view'.Keys, owner', kpd, pd, i);
      } else {
        NewEntry(mem, used, dirs, owner, mem', used', view', owner', kpd, pd, v, user);
      }
    }
  }

  /** A page lies in at most one area. */
  lemma OneArea(vmas: seq<Vma>, i: nat, j: nat, v: nat)
    requires Sorted(vmas) && i < |vmas| && j < |vmas|
    ensures InArea(vmas[i], v) && InArea(vmas[j], v) ==> i == j
  {
  }

  /** One space after a change of the `n` pages from `first` on. */
  ghost predicate SpaceChanged(space: Space, space': Space, first: nat, n: nat, c: Change) {
    forall v: nat {:trigger space'[v]} :: v < PAGES ==>
      space'[v] == if first <= v < first + n then Apply(c, v - first, space[v]) else space[v]
  }

  /** A change in the user half of one space leaves every other space alone. */
  lemma OnlyThisSpace(view: View, view': View, pd: nat, first: nat, n: nat, c: Change)
    requires RangeChanged(view, view', pd, first, n, c) && first + n <= KERNEL_PAGES && pd in view
    ensures SpaceChanged(view[pd], view'[pd], first, n, c)
    ensures forall p :: p in view && p != pd ==> view'[p] == view[p]
  {
    forall p | p in view && p != pd
      ensures view'[p] == view[p]
    {
      assert forall v: nat :: v < PAGES ==> view'[p][v] == Changed(view, pd, first, n, c, p, v);
    }
  }

  /** The page at `virt` is free and there is a table for it or a frame for one. */
  ghost predicate FirstMaps(view: View, mem: Memory, used: seq<bool>, pd: nat, virt: nat) {
    pd in view && pd in mem && virt / PAGE < PAGES && view[pd][virt / PAGE] == None && CanReach(mem, used, pd, virt / PAGE)
  }

  /** The kernel's own space is as before. */
  ghost predicate KernelSideKept(view: View, view': View, kpd: nat) {
    kpd in view && kpd in view' && view'[kpd] == view[kpd]
  }

  lemma KernelAside(view: View, view': View, pd: nat, first: nat, n: nat, c: Change, kpd: nat)
    requires RangeChanged(view, view', pd, first, n, c) && first + n <= KERNEL_PAGES && pd in view && kpd in view && kpd != pd
    ensures KernelSideKept(view, view', kpd)
  {
    OnlyThisSpace(view, view', pd, first, n, c);
    assert kpd in view'.Keys;
  }

  /** Mapping pages outside every area keeps the areas resident. */
  lemma ResidentAfterMap(vmas: seq<Vma>, space: Space, space': Space, virt: nat, end: nat, n: nat, frame: nat, flags: Flags)
    requires Sorted(vmas) && Resident(vmas, space) && !Overlaps(vmas, virt, end)
    requires virt < end && virt % PAGE == 0 && end % PAGE == 0 && virt / PAGE + n <= end / PAGE <= KERNEL_PAGES
    requires SpaceChanged(space, space', virt / PAGE, n, ToFrames(frame, flags))
    ensures Resident(vmas, space')
  {
    forall i, v: nat {:trigger InArea(vmas[i], v)} | 0 <= i < |vmas| && InArea(vmas[i], v)
      ensures PageHas(space', v, vmas[i].flags)
    {
      assert PageHas(space, v, vmas[i].flags);
      assert !(vmas[i].start < end && virt < vmas[i].end);
    }
  }

  lemma ResidentInserted(vmas: seq<Vma>, space: Space, k: nat, a: Vma)
    requires Resident(vmas, space) && k <= |vmas|
    requires forall v: nat :: InArea(a, v) ==> PageHas(space, v, a.flags)
    ensures Resident(InsertAt(vmas, k, a), space)
  {
    var l := InsertAt(vmas, k, a);
    forall i, v: nat {:trigger InArea(l[i], v)} | 0 <= i < |l| && InArea(l[i], v)
      ensures PageHas(space, v, l[i].flags)
    {
      if i < k { assert InArea(vmas[i], v); } else if i > k { assert InArea(vmas[i - 1], v); }
    }
  }

  lemma CoveredInserted(vmas: seq<Vma>, space: Space, space': Space, k: nat, a: Vma)
    requires Covered(vmas, space) && k <= |vmas|
    requires forall v: nat :: v < KERNEL_PAGES && !InArea(a, v) ==> space'[v] == space[v]
    ensures Covered(InsertAt(vmas, k, a), space')
  {
    var l := InsertAt(vmas, k, a);
    forall v: nat {:trigger InSome(l, v)} | v < KERNEL_PAGES && space'[v].Some?
      ensures InSome(l, v)
    {
      if InArea(a, v) {
        assert InArea(l[k], v);
      } else {
        assert InSome(vmas, v);
        var i :| 0 <= i < |vmas| && InArea(vmas[i], v);
        assert InArea(l[if i < k then i else i + 1], v);
      }
    }
  }

  /** In a covered space, pages that no area contains are not mapped. */
  lemma UncoveredIsFree(vmas: seq<Vma>, space: Space, virt: nat, end: nat, v: nat)
    requires Sorted(vmas) && Covered(vmas, space) && !Overlaps(vmas, virt, end)
    requires virt % PAGE == 0 && end % PAGE == 0 && virt / PAGE <= v < end / PAGE <= KERNEL_PAGES
    ensures space[v] == None
  {
    assert !InSome(vmas, v) by {
      forall i | 0 <= i < |vmas|
        ensures !InArea(vmas[i], v)
      {
        assert !(vmas[i].start < end && virt < vmas[i].end);
      }
    }
  }

  /** Dropping one area together with its pages. */
  lemma AfterUnmap(vmas: seq<Vma>, space: Space, space': Space, k: nat)
    requires Sorted(vmas) && Resident(vmas, space) && k < |vmas|
    requires SpaceChanged(space, space', vmas[k].start / PAGE, vmas[k].end / PAGE - vmas[k].start / PAGE, Removed)
    ensures Resident(RemoveAt(vmas, k), space')
  {
    var l := RemoveAt(vmas, k);
    forall i, v: nat {:trigger InArea(l[i], v)} | 0 <= i < |l| && InArea(l[i], v)
      ensures PageHas(space', v, l[i].flags)
    {
      var j := if i < k then i else i + 1;
      assert l[i] == vmas[j] && InArea(vmas[j], v);
      OneArea(vmas, j, k, v);
    }
  }

  lemma CoveredAfterUnmap(vmas: seq<Vma>, space: Space, space': Space, k: nat)
    requires Sorted(vmas) && Covered(vmas, space) && k < |vmas|
    requires SpaceChanged(space, space', vmas[k].start / PAGE, vmas[k].end / PAGE - vmas[k].start / PAGE, Removed)
    ensures Covered(RemoveAt(vmas, k), space')
  {
    var l := RemoveAt(vmas, k);
    forall v: nat {:trigger InSome(l, v)} | v < KERNEL_PAGES && space'[v].Some?
      ensures InSome(l, v)
    {
      assert space'[v] != None && InSome(vmas, v);
      var i :| 0 <= i < |vmas| && InArea(vmas[i], v);
      assert i != k;
      assert InArea(l[if i < k then i else i - 1], v);
    }
  }

  /** Giving one area and its pages new permissions. */
  lemma AfterProtect(vmas: seq<Vma>, space: Space, space': Space, k: nat, flags: Flags)
    requires Sorted(vmas) && Resident(vmas, space) && k < |vmas|
    requires SpaceChanged(space, space', vmas[k].start / PAGE, vmas[k].end / PAGE - vmas[k].start / PAGE, Reprotected(flags))
    ensures var l := vmas[k := vmas[k].(flags := flags)];
      Sorted(l) && Resident(l, space') && (Covered(vmas, space) ==> Covered(l, space'))
  {
    var l := vmas[k := vmas[k].(flags := flags)];
    forall i, v: nat {:trigger InArea(l[i], v)} | 0 <= i < |l| && InArea(l[i], v)
      ensures PageHas(space', v, l[i].flags)
    {
      assert InArea(vmas[i], v);
      OneArea(vmas, i, k, v);
    }
    if Covered(vmas, space) {
      forall v: nat {:trigger InSome(l, v)} | v < KERNEL_PAGES && space'[v].Some?
        ensures InSome(l, v)
      {
        assert InSome(vmas, v);
        var i :| 0 <= i < |vmas| && InArea(vmas[i], v);
        assert InArea(l[i], v);
      }
    }
  }

  ghost predicate BadArea(virt: nat, size: nat)
    requires virt < ADDRESSES && size < ADDRESSES
  {
    size == 0 || virt % PAGE != 0 || size % PAGE != 0 || !UserRange(virt, size)
  }

  /** `vm_add_vma`: the list stays sorted, apart and in user space exactly if the end of the range does not wrap. */
  method AddVma(vmas: seq<Vma>, virt: nat, size: nat, flags: Flags, haveNode: bool) returns (r: Result, after: seq<Vma>, ghost k: nat)
    requires Sorted(vmas) && virt < ADDRESSES && size < ADDRESSES
    ensures r == Failed(BadArgument) <==> BadArea(virt, size)
    ensures r == Failed(AlreadyMapped) <==> !BadArea(virt, size) && Overlaps(vmas, virt, End32(virt, size))
    ensures r == Failed(NoMemory) <==> !BadArea(virt, size) && !Overlaps(vmas, virt, End32(virt, size)) && !haveNode
    ensures r == Ok <==> !BadArea(virt, size) && !Overlaps(vmas, virt, End32(virt, size)) && haveNode
    ensures r != Ok ==> after == vmas
    ensures r == Ok ==> k <= |vmas| && after == InsertAt(vmas, k, Vma(virt, End32(virt, size), flags))
    ensures r == Ok ==> (Sorted(after) <==> virt + size != ADDRESSES)
    ensures r == Ok && virt + size != ADDRESSES ==> Fits(vmas, k, Vma(virt, virt + size, flags))
  {
    UserRangeExact(virt, size);
    after, k := vmas, 0;
    if size == 0 || virt % PAGE != 0 || size % PAGE != 0 || !UserRange(virt, size) {
      r := Failed(BadArgument);
      return;
    }
    var end := End32(virt, size);
    var ok, place := Place(vmas, virt, end);
    if !ok {
      r := Failed(AlreadyMapped);
      return;
    }
    if !haveNode {
      r := Failed(NoMemory);
      return;
    }
    k, after, r := place, InsertAt(vmas, place, Vma(virt, end, flags)), Ok;
    if virt + size != ADDRESSES {
      InsertSorted(vmas, place, Vma(virt, end, flags));
    } else {
      assert after[place].end == 0;
    }
  }

  /** `vm_remove_vma` */
  method RemoveVma(vmas: seq<Vma>, virt: nat) returns (r: Result, after: seq<Vma>, ghost k: nat)
    requires Sorted(vmas)
    ensures if exists i :: 0 <= i < |vmas| && Contains(vmas[i], virt) then r == Ok else r == Failed(NotMapped) && after == vmas
    ensures r == Ok ==> k < |vmas| && Contains(vmas[k], virt) && after == RemoveAt(vmas, k) && Sorted(after)
  {
    var found, j := Find(vmas, virt);
    k := j;
    if !found {
      return Failed(NotMapped), vmas, 0;
    }
    RemoveSorted(vmas, j);
    r, after := Ok, RemoveAt(vmas, j);
  }

  /** `vm_remove_vma` of an address in the area inserted last: the list is the one before. */
  method TakeBack(vmas: seq<Vma>, virt: nat, ghost before: seq<Vma>, ghost k: nat) returns (after: seq<Vma>)
    requires Sorted(vmas) && k <= |before| && k < |vmas| && vmas == InsertAt(before, k, vmas[k]) && Contains(vmas[k], virt)
    ensures after == before
  {
    var r, rest, j := RemoveVma(vmas, virt);
    RemoveUndoesInsert(before, k, vmas[k]);
    after := rest;
  }

  /** The areas are sorted and resident, and unless the space is torn they cover its user pages. */
  ghost predicate SpaceGood(vmas: seq<Vma>, space: Space, torn: bool) {
    Sorted(vmas) && Resident(vmas, space) && (!torn ==> Covered(vmas, space))
  }

  ghost predicate AllGood(spaces: map<nat, seq<Vma>>, view: View, torn: set<nat>) {
    forall p {:trigger GoodAt(spaces, view, torn, p)} :: p in spaces ==> GoodAt(spaces, view, torn, p)
  }

  ghost predicate GoodAt(spaces: map<nat, seq<Vma>>, view: View, torn: set<nat>, p: nat)
    requires p in spaces
  {
    p in view && SpaceGood(spaces[p], view[p], p in torn)
  }

  /** A step that touches one space keeps all the others good. */
  lemma GoodAfter(spaces: map<nat, seq<Vma>>, view: View, torn: set<nat>, pd: nat, vmas: seq<Vma>, view': View, torn': set<nat>)
    requires AllGood(spaces, view, torn)
    requires forall p :: p in view && p != pd ==> p in view' && view'[p] == view[p]
    requires forall p :: p != pd ==> (p in torn' <==> p in torn)
    requires pd in view' && SpaceGood(vmas, view'[pd], pd in torn')
    ensures AllGood(spaces[pd := vmas], view', torn')
  {
    var spaces' := spaces[pd := vmas];
    forall p {:trigger GoodAt(spaces', view', torn', p)} | p in spaces'
      ensures GoodAt(spaces', view', torn', p)
    {
      if p != pd { assert GoodAt(spaces, view, torn, p); }
    }
  }

  lemma GoodWithout(spaces: map<nat, seq<Vma>>, view: View, torn: set<nat>, pd: nat)
    requires AllGood(spaces, view, torn)
    ensures AllGood(spaces - {pd}, view - {pd}, torn)
  {
    forall p {:trigger GoodAt(spaces - {pd}, view - {pd}, torn, p)} | p in spaces - {pd}
      ensures GoodAt(spaces - {pd}, view - {pd}, torn, p)
    {
      assert GoodAt(spaces, view, torn, p);
    }
  }

  lemma PutBack(spaces: map<nat, seq<Vma>>, pd: nat, vmas: seq<Vma>)
    requires pd in spaces
    ensures spaces[pd := vmas][pd := spaces[pd]] == spaces == spaces[pd := spaces[pd]]
  {
  }

  class Vmm {
    const mmu: Mmu
    /** The areas of every process space, by directory. */
    var spaces: map<nat, seq<Vma>>
    /** Spaces in which a page-table mapping has stopped part-way. */
    ghost var torn: set<nat>

    ghost predicate Valid()
      reads this, mmu, mmu.pmm, mmu.pmm.bm, mmu.pmm.bm.data
    {
      && mmu.Valid()
      && spaces.Keys == mmu.view.Keys - {mmu.kernelPd}
      && AllGood(spaces, mmu.view, torn)
    }

    constructor (mmu: Mmu)
      requires mmu.Valid() && mmu.view.Keys == {mmu.kernelPd}
      ensures Valid() && this.mmu == mmu && spaces == map[] && torn == {}
    {
      this.mmu := mmu;
      spaces, torn := map[], {};
    }

    /** `vm_space_init` */
    method SpaceInit() returns (pd: Option<nat>)
      requires Valid()
      modifies this, mmu`mem, mmu`view, mmu`owner, mmu.pmm, mmu.pmm.bm`bits, mmu.pmm.bm.data
      ensures Valid()
      ensures pd == None ==> spaces == old(spaces) && mmu.view == old(mmu.view) && torn == old(torn)
      ensures pd == None ==> NoLowFrame(mmu.pmm.bm.bits) && mmu.pmm.bm.bits == old(mmu.pmm.bm.bits)
      ensures pd.Some? ==> pd.value !in old(spaces) && spaces == old(spaces)[pd.value := []] && torn == old(torn) - {pd.value}
      ensures pd.Some? ==> mmu.view == old(mmu.view)[pd.value := KernelOnly(old(mmu.view)[mmu.kernelPd])]
      ensures pd.Some? ==> FirstRun(old(mmu.pmm.bm.bits), 0, LowEnd(mmu.pmm.bm.nbits), 1, pd.value)
      ensures pd.Some? ==> mmu.pmm.bm.bits == old(mmu.pmm.bm.bits)[pd.value := true] && Attached(old(mmu.mem), mmu.kernelPd, mmu.mem[pd.value])
      ensures SameHeld(old(mmu.pmm.bm.bits), old(mmu.owner), mmu.pmm.bm.bits, mmu.owner)
      ensures SameKernelTables(old(mmu.owner), mmu.owner, mmu.kernelPd) && KernelSideKept(old(mmu.view), mmu.view, mmu.kernelPd)
      ensures MoreForUser(old(mmu.owner), mmu.owner)
    {
      ghost var view := mmu.view;
      pd := mmu.SpaceInit();
      if pd.Some? {
        CreateHeld(old(mmu.pmm.bm.bits), old(mmu.owner), pd.value, mmu.kernelPd);
        GoodAfter(spaces, view, torn, pd.value, [], mmu.view, torn - {pd.value});
        spaces := spaces[pd.value := []];
        torn := torn - {pd.value};
      }
    }

    /** `vm_space_destroy` */
    method SpaceDestroy(pd: nat) returns (r: Result)
      requires Valid() && pd in spaces
      modifies this, mmu`view, mmu`owner, mmu.pmm, mmu.pmm.bm`bits, mmu.pmm.bm.data
      ensures Valid() && r == Ok
      ensures spaces == old(spaces) - {pd} && mmu.view == old(mmu.view) - {pd} && torn == old(torn)
      ensures FreedExactly(old(mmu.pmm.bm.bits), mmu.pmm.bm.bits, old(mmu.owner), pd)
      ensures SameHeld(old(mmu.pmm.bm.bits), old(mmu.owner), mmu.pmm.bm.bits, mmu.owner)
      ensures SameKernelTables(old(mmu.owner), mmu.owner, mmu.kernelPd) && KernelSideKept(old(mmu.view), mmu.view, mmu.kernelPd)
      ensures MoreForUser(old(mmu.owner), mmu.owner)
    {
      r := mmu.SpaceDestroy(pd);
      DestroyHeld(old(mmu.pmm.bm.bits), mmu.pmm.bm.bits, old(mmu.owner), pd, mmu.kernelPd);
      GoodWithout(spaces, old(mmu.view), torn, pd);
      spaces := spaces - {pd};
    }

    /**
     * `vm_map`.  `haveNode` says whether the heap can supply the area record.  When the page
     * tables fail, the area list is as before and the first `done` pages stay mapped.
     */
    method Map(pd: nat, virt: nat, phys: nat, size: nat, flags: Flags, haveNode: bool) returns (r: Result, done: nat, ghost at: nat)
      requires Valid() && pd in spaces && NoWrap(virt, size)
      modifies this, mmu`mem, mmu`view, mmu`owner, mmu.pmm, mmu.pmm.bm`bits, mmu.pmm.bm.data
      ensures Valid()
      ensures r == Failed(BadArgument) <==>
        || size == 0 || virt % PAGE != 0 || phys % PAGE != 0 || size % PAGE != 0
        || virt + size > 0xC000_0000 || phys + size > 0x1_0000_0000_0000_0000
      ensures pd in spaces
      ensures r == Ok ==> done == size / PAGE && at <= |old(spaces)[pd]|
      ensures r == Failed(BadArgument) ==> done == 0
      ensures r != Ok && r != Failed(BadArgument) ==> done < size / PAGE
      ensures r != Ok ==>
        (done > 0 <==>
          && r != Failed(BadArgument) && !Overlaps(old(spaces)[pd], virt, virt + size) && haveNode
          && FirstMaps(old(mmu.view), old(mmu.mem), old(mmu.pmm.bm.bits), pd, virt))
      ensures TablesFor(old(mmu.owner), mmu.owner, flags.user)
      ensures pd in old(mmu.mem) && pd in mmu.mem && UserReaches(old(mmu.mem), mmu.mem, pd, virt / PAGE, done, flags.user)
      ensures KernelSideKept(old(mmu.view), mmu.view, mmu.kernelPd)
      ensures r == Ok ==> spaces == old(spaces)[pd := InsertAt(old(spaces)[pd], at, Vma(virt, virt + size, flags))]
      ensures r == Ok ==> !Overlaps(old(spaces)[pd], virt, virt + size) && haveNode
      ensures r == Ok ==> torn == old(torn)
      ensures r != Ok ==> spaces == old(spaces) && torn <= old(torn) + {pd}
      ensures r != Ok && done == 0 ==> torn == old(torn)
      ensures r == Failed(AlreadyMapped) && pd !in old(torn) ==> Overlaps(old(spaces)[pd], virt, virt + size)
      ensures r != Failed(BadArgument) && Overlaps(old(spaces)[pd], virt, virt + size) ==> r == Failed(AlreadyMapped)
      ensures r == Failed(NoMemory) ==> !haveNode || NoLowFrame(mmu.pmm.bm.bits)
      ensures DataKept(old(mmu.mem), mmu.mem, mmu.owner)
      ensures RangeChanged(old(mmu.view), mmu.view, pd, virt / PAGE, done, ToFrames(phys / PAGE, flags))
      ensures done <= size / PAGE
      ensures TablesGrown(old(mmu.pmm.bm.bits), mmu.pmm.bm.bits, old(mmu.owner), mmu.owner, pd)
    {
      RangeNothing(mmu.view, pd, virt / PAGE, ToFrames(phys / PAGE, flags));
      UserRangeExact(virt, size);
      if size == 0 || virt % PAGE != 0 || phys % PAGE != 0 || size % PAGE != 0
        || !UserRange(virt, size) || !PhysRange(phys, size) {
        return Failed(BadArgument), 0, 0;
      }
      assert GoodAt(spaces, mmu.view, torn, pd);
      var added, vmas;
      added, vmas, at := AddVma(spaces[pd], virt, size, flags, haveNode);
      if added != Ok {
        return added, 0, 0;
      }
      r, done := MapArea(pd, vmas, at, Vma(virt, virt + size, flags), phys);
      assert (virt + size - virt) / PAGE == size / PAGE;
      KernelAside(old(mmu.view), mmu.view, pd, virt / PAGE, done, ToFrames(phys / PAGE, flags), mmu.kernelPd);
      ReachDecided(old(mmu.mem), old(mmu.pmm.bm.bits), old(mmu.view).Keys, old(mmu.owner), mmu.mem, mmu.pmm.bm.bits, mmu.view, mmu.owner,
                   mmu.kernelPd, pd, virt / PAGE, done, flags.user);
    }

    /** The area goes into the list, the pages into the tables; if those fail the area is looked up and taken out again. */
    method MapArea(pd: nat, vmas: seq<Vma>, ghost k: nat, area: Vma, phys: nat) returns (r: Result, done: nat)
      requires Valid() && pd in spaces && phys % PAGE == 0 && Fits(spaces[pd], k, area) && vmas == InsertAt(spaces[pd], k, area)
      modifies this, mmu`mem, mmu`view, mmu`owner, mmu.pmm, mmu.pmm.bm`bits, mmu.pmm.bm.data
      ensures Valid()
      ensures r == Ok ==> done == (area.end - area.start) / PAGE && torn == old(torn)
      ensures r == Ok ==> spaces == old(spaces)[pd := InsertAt(old(spaces)[pd], k, area)]
      ensures r != Ok ==> spaces == old(spaces) && torn == if done == 0 then old(torn) else old(torn) + {pd}
      ensures r == Ok || r == Failed(NoMemory) || r == Failed(AlreadyMapped)
      ensures r == Failed(NoMemory) ==> NoLowFrame(mmu.pmm.bm.bits)
      ensures r != Ok ==> (done > 0 <==> FirstMaps(old(mmu.view), old(mmu.mem), old(mmu.pmm.bm.bits), pd, area.start))
      ensures TablesFor(old(mmu.owner), mmu.owner, area.flags.user)
      ensures pd !in old(torn) ==> r != Failed(AlreadyMapped)
      ensures DataKept(old(mmu.mem), mmu.mem, mmu.owner)
      ensures RangeChanged(old(mmu.view), mmu.view, pd, area.start / PAGE, done, ToFrames(phys / PAGE, area.flags))
      ensures done <= (area.end - area.start) / PAGE && (r != Ok ==> done < (area.end - area.start) / PAGE)
      ensures TablesGrown(old(mmu.pmm.bm.bits), mmu.pmm.bm.bits, old(mmu.owner), mmu.owner, pd)
    {
      assert (area.end - area.start) % PAGE == 0 && area.start / PAGE + (area.end - area.start) / PAGE == area.end / PAGE;
      spaces := spaces[pd := vmas];
      r, done := mmu.Map(pd, area.start, phys, area.end - area.start, area.flags);
      ghost var torn' := if r == Ok || done == 0 then torn else torn + {pd};
      MapAreaGood(old(spaces), old(mmu.view), mmu.view, torn, torn', pd, k, area, phys, done, r == Ok);
      PutBack(old(spaces), pd, vmas);
      if r != Ok {
        RollBack(pd, area.start, old(spaces), k, torn');
      }
    }

    /** The area that was inserted last is looked up and taken out again. */
    method RollBack(pd: nat, virt: nat, ghost before: map<nat, seq<Vma>>, ghost k: nat, ghost torn': set<nat>)
      requires mmu.Valid() && before.Keys == mmu.view.Keys - {mmu.kernelPd} && AllGood(before, mmu.view, torn')
      requires pd in before && pd in spaces && spaces[pd := before[pd]] == before
      requires Sorted(spaces[pd]) && k <= |before[pd]| && k < |spaces[pd]| && spaces[pd] == InsertAt(before[pd], k, spaces[pd][k])
      requires Contains(spaces[pd][k], virt)
      modifies this
      ensures Valid() && spaces == before && torn == torn'
    {
      var rest := TakeBack(spaces[pd], virt, before[pd], k);
      spaces := spaces[pd := rest];
      torn := torn';
    }

    /** `vm_unmap`: only a whole area, and then it never stops part-way. */
    method Unmap(pd: nat, virt: nat, size: nat) returns (r: Result)
      requires Valid() && pd in spaces && virt < ADDRESSES && size < ADDRESSES
      modifies this, mmu`mem, mmu`view
      ensures Valid() && torn == old(torn)
      ensures KernelSideKept(old(mmu.view), mmu.view, mmu.kernelPd)
      ensures r == Ok <==> size > 0 && size % PAGE == 0 && exists k: nat :: IsArea(old(spaces)[pd], k, virt, size)
      ensures r == Ok ==> pd in spaces && spaces == old(spaces)[pd := spaces[pd]]
      ensures r == Ok ==> Dropped(old(spaces)[pd], spaces[pd], virt, size)
      ensures r == Ok ==> RangeChanged(old(mmu.view), mmu.view, pd, virt / PAGE, size / PAGE, Removed)
      ensures r != Ok ==> spaces == old(spaces) && mmu.view == old(mmu.view)
      ensures r == Failed(NotMapped) <==> !BadArea(virt, size) && !Spanned(old(spaces)[pd], virt, size)
      ensures r == Failed(BadArgument) <==>
        BadArea(virt, size) || (Spanned(old(spaces)[pd], virt, size) && forall k: nat :: !IsArea(old(spaces)[pd], k, virt, size))
    {
      UserRangeExact(virt, size);
      assert GoodAt(spaces, mmu.view, torn, pd);
      if size == 0 || virt % PAGE != 0 || size % PAGE != 0 || !UserRange(virt, size) {
        return Failed(BadArgument);
      }
      var found, k := FindRange(spaces[pd], virt, size);
      if !found {
        return Failed(NotMapped);
      }
      if spaces[pd][k].start != virt || spaces[pd][k].end != End32(virt, size) {
        OnlyArea(spaces[pd], k, virt, size);
        return Failed(BadArgument);
      }
      ghost var done;
      r, done := mmu.Unmap(pd, virt, size);
      assert IsArea(old(spaces)[pd], k, virt, size);
      UnmapGood(spaces, old(mmu.view), mmu.view, torn, pd, k, virt, size);
      KernelAside(old(mmu.view), mmu.view, pd, virt / PAGE, size / PAGE, Removed, mmu.kernelPd);
      spaces := spaces[pd := RemoveAt(spaces[pd], k)];
    }

    /** `vm_protect`: only a whole area; pages and area get the new permissions together. */
    method Protect(pd: nat, virt: nat, size: nat, flags: Flags) returns (r: Result)
      requires Valid() && pd in spaces && virt < ADDRESSES && size < ADDRESSES
      modifies this, mmu`mem, mmu`view
      ensures Valid() && torn == old(torn)
      ensures KernelSideKept(old(mmu.view), mmu.view, mmu.kernelPd)
      ensures r == Ok <==> size > 0 && size % PAGE == 0 && exists k: nat :: IsArea(old(spaces)[pd], k, virt, size)
      ensures r == Ok ==> pd in spaces && spaces == old(spaces)[pd := spaces[pd]]
      ensures r == Ok ==> Reflagged(old(spaces)[pd], spaces[pd], virt, size, flags)
      ensures r == Ok ==> RangeChanged(old(mmu.view), mmu.view, pd, virt / PAGE, size / PAGE, Reprotected(flags))
      ensures pd in old(mmu.mem) && pd in mmu.mem && (r == Ok ==> UserReaches(old(mmu.mem), mmu.mem, pd, virt / PAGE, size / PAGE, flags.user))
      ensures r != Ok ==> spaces == old(spaces) && mmu.view == old(mmu.view)
      ensures r == Failed(NotMapped) <==> !BadArea(virt, size) && !Spanned(old(spaces)[pd], virt, size)
      ensures r == Failed(BadArgument) <==>
        BadArea(virt, size) || (Spanned(old(spaces)[pd], virt, size) && forall k: nat :: !IsArea(old(spaces)[pd], k, virt, size))
    {
      UserRangeExact(virt, size);
      assert GoodAt(spaces, mmu.view, torn, pd);
      if size == 0 || virt % PAGE != 0 || size % PAGE != 0 || !UserRange(virt, size) {
        return Failed(BadArgument);
      }
      var found, k := FindRange(spaces[pd], virt, size);
      if !found {
        return Failed(NotMapped);
      }
      if spaces[pd][k].start != virt || spaces[pd][k].end != End32(virt, size) {
        OnlyArea(spaces[pd], k, virt, size);
        return Failed(BadArgument);
      }
      ghost var done;
      r, done := mmu.Protect(pd, virt, size, flags);
      assert IsArea(old(spaces)[pd], k, virt, size);
      ProtectGood(spaces, old(mmu.view), mmu.view, torn, pd, k, virt, size, flags);
      KernelAside(old(mmu.view), mmu.view, pd, virt / PAGE, size / PAGE, Reprotected(flags), mmu.kernelPd);
      ReachDecided(old(mmu.mem), old(mmu.pmm.bm.bits), old(mmu.view).Keys, mmu.owner, mmu.mem, mmu.pmm.bm.bits, mmu.view, mmu.owner,
                   mmu.kernelPd, pd, virt / PAGE, size / PAGE, flags.user);
      spaces := spaces[pd := spaces[pd][k := Vma(virt, virt + size, flags)]];
    }

    /** Kernel mappings come and go in every space at once and touch no area. */
    method KernelChange(op: KernelOp) returns (r: Result, ghost done: nat)
      requires Valid() && op.virt < ADDRESSES && op.size < ADDRESSES
      modifies mmu`mem, mmu`view, mmu`owner, mmu.pmm, mmu.pmm.bm`bits, mmu.pmm.bm.data
      ensures Valid() && SameUser(spaces, old(mmu.view), mmu.view)
      ensures mmu.owner == old(mmu.owner) && mmu.pmm.bm.bits == old(mmu.pmm.bm.bits)
      ensures RangeChanged(old(mmu.view), mmu.view, mmu.kernelPd, op.virt / PAGE, done, ChangeOf(op))
      ensures done <= op.size / PAGE && (r == Ok ==> KernelVm.RangeValid(op.virt, op.size) && done == op.size / PAGE)
      ensures KernelAligned(op) ==> (r == Ok <==> KernelReady(op, old(mmu.view)[mmu.kernelPd]))
    {
      ghost var view := mmu.view;
      match op {
        case MapKernel(virt, size, phys, flags) =>
          r, done := KernelVm.Map(mmu, virt, phys, size, flags);
          KernelGood(spaces, view, mmu.view, torn, mmu.kernelPd, virt / PAGE, done, ToFrames(phys / PAGE, flags));
        case UnmapKernel(virt, size) =>
          r, done := KernelVm.Unmap(mmu, virt, size);
          KernelGood(spaces, view, mmu.view, torn, mmu.kernelPd, virt / PAGE, done, Removed);
        case ProtectKernel(virt, size, flags) =>
          r, done := KernelVm.Protect(mmu, virt, size, flags);
          KernelGood(spaces, view, mmu.view, torn, mmu.kernelPd, virt / PAGE, done, Reprotected(flags));
      }
    }

    /**
     * Any run of requests over any number of spaces: afterwards ownership, the lists and the
     * page tables agree, and every live space has the kernel's pages as the kernel has them.
     * Requests outside the domain are skipped.
     */
    method Run(requests: seq<Request>)
      requires Valid()
      modifies this, mmu`mem, mmu`view, mmu`owner, mmu.pmm, mmu.pmm.bm`bits, mmu.pmm.bm.data
      ensures Valid()
      ensures forall p, v: nat {:trigger mmu.view[p][v]} :: p in spaces && KERNEL_PAGES <= v < PAGES ==>
        mmu.view[p][v] == mmu.view[mmu.kernelPd][v]
      ensures forall p {:trigger p in spaces} :: p in spaces ==>
        p in mmu.mem && AreasGranted(mmu.mem, mmu.owner, p, spaces[p]) && KernelClosed(mmu.mem, p)
    {
      for i := 0 to |requests|
        invariant Valid()
      {
        Serve(requests[i]);
      }
      mmu.SharedSame(mmu.kernelPd);
      Granted();
    }

    /** What the processor grants the user in every space. */
    lemma Granted()
      requires Valid()
      ensures forall p {:trigger p in spaces} :: p in spaces ==>
        p in mmu.mem && AreasGranted(mmu.mem, mmu.owner, p, spaces[p]) && KernelClosed(mmu.mem, p)
    {
      forall p | p in spaces
        ensures p in mmu.mem && AreasGranted(mmu.mem, mmu.owner, p, spaces[p]) && KernelClosed(mmu.mem, p)
      {
        assert GoodAt(spaces, mmu.view, torn, p);
        AreasAreGranted(mmu.mem, mmu.pmm.bm.bits, mmu.kernelPd, mmu.owner, mmu.view, p, spaces[p]);
        forall v: nat {:trigger Effective(mmu.mem, p, v)} | KERNEL_PAGES <= v < PAGES
          ensures Effective(mmu.mem, p, v).Some? ==> !Effective(mmu.mem, p, v).value.user
        {
          KernelNotForUser(mmu.mem, mmu.pmm.bm.bits, mmu.kernelPd, mmu.owner, mmu.view, p, v);
        }
      }
    }

    ghost function Now(): Scene
      reads this, mmu, mmu.pmm, mmu.pmm.bm
    {
      Scene(mmu.view, mmu.pmm.bm.bits, mmu.owner, spaces)
    }

    /** No request touches a frame that holds no table, and only those of the kernel touch its space. */
    method Serve(q: Request)
      requires Valid()
      modifies this, mmu`mem, mmu`view, mmu`owner, mmu.pmm, mmu.pmm.bm`bits, mmu.pmm.bm.data
      ensures Valid() && Served(old(Now()), Now(), mmu.kernelPd, q)
    {
      match q {
        case NewSpace => ServeSpace(q);
        case EndSpace(_) => ServeSpace(q);
        case MapUser(_, _, _, _, _, _) => ServeMap(q);
        case UnmapUser(_, _, _) => ServeUnmap(q);
        case ProtectUser(_, _, _, _) => ServeProtect(q);
        case Kernel(op) =>
          if op.virt < ADDRESSES && op.size < ADDRESSES {
            ghost var s := Now();
            var r, done := KernelChange(op);
            assert Now() == s.(view := mmu.view);
          }
      }
    }

    method ServeSpace(q: Request)
      requires Valid() && (q.NewSpace? || q.EndSpace?)
      modifies this, mmu`mem, mmu`view, mmu`owner, mmu.pmm, mmu.pmm.bm`bits, mmu.pmm.bm.data
      ensures Valid() && Served(old(Now()), Now(), mmu.kernelPd, q)
    {
      if q.NewSpace? {
        var pd := SpaceInit();
      } else if q.pd in spaces {
        var r := SpaceDestroy(q.pd);
      }
    }

    method ServeMap(q: Request)
      requires Valid() && q.MapUser?
      modifies this, mmu`mem, mmu`view, mmu`owner, mmu.pmm, mmu.pmm.bm`bits, mmu.pmm.bm.data
      ensures Valid() && Served(old(Now()), Now(), mmu.kernelPd, q)
    {
      if q.pd in spaces && NoWrap(q.virt, q.size) {
        ghost var s := Now();
        var r, done, at := Map(q.pd, q.virt, q.phys, q.size, q.flags, q.haveNode);
        MapServed(s, Now(), mmu.kernelPd, q, done);
      }
    }

    method ServeUnmap(q: Request)
      requires Valid() && q.UnmapUser?
      modifies this, mmu`mem, mmu`view
      ensures Valid() && Served(old(Now()), Now(), mmu.kernelPd, q)
    {
      if q.pd in spaces && q.virt < ADDRESSES && q.size < ADDRESSES {
        ghost var s := Now();
        var r := Unmap(q.pd, q.virt, q.size);
        if r == Ok { ChangeServed(s, Now(), mmu.kernelPd, q, Removed); }
      }
    }

    method ServeProtect(q: Request)
      requires Valid() && q.ProtectUser?
      modifies this, mmu`mem, mmu`view
      ensures Valid() && Served(old(Now()), Now(), mmu.kernelPd, q)
    {
      if q.pd in spaces && q.virt < ADDRESSES && q.size < ADDRESSES {
        ghost var s := Now();
        var r := Protect(q.pd, q.virt, q.size, q.flags);
        if r == Ok { ChangeServed(s, Now(), mmu.kernelPd, q, Reprotected(q.flags)); }
      }
    }
  }

  /** What requests are accountable for. */
  datatype Scene = Scene(view: View, used: seq<bool>, owner: map<nat, Owner>, spaces: map<nat, seq<Vma>>)

  ghost predicate Served(s0: Scene, s1: Scene, kpd: nat, q: Request) {
    && SameHeld(s0.used, s0.owner, s1.used, s1.owner) && SameKernelTables(s0.owner, s1.owner, kpd)
    && (!q.Kernel? ==> KernelSideKept(s0.view, s1.view, kpd))
    && (!q.MapUser? ==> NoNewPages(s0.spaces, s0.view, s1.spaces, s1.view))
    && (!(q.MapUser? && !q.flags.user) ==> MoreForUser(s0.owner, s1.owner))
    && (!((q.MapUser? || q.ProtectUser?) && !q.flags.user) ==> NoneHidden(s0.spaces, s0.view, s1.spaces, s1.view))
  }

  lemma MapServed(s0: Scene, s1: Scene, kpd: nat, q: Request, done: nat)
    requires q.MapUser? && q.pd != kpd && KernelSideKept(s0.view, s1.view, kpd) && s1.spaces.Keys == s0.spaces.Keys
    requires RangeChanged(s0.view, s1.view, q.pd, q.virt / PAGE, done, ToFrames(q.phys / PAGE, q.flags))
    requires TablesGrown(s0.used, s1.used, s0.owner, s1.owner, q.pd) && TablesFor(s0.owner, s1.owner, q.flags.user)
    ensures Served(s0, s1, kpd, q)
  {
    GrownHeld(s0.used, s1.used, s0.owner, s1.owner, q.pd, kpd);
    if q.flags.user { HidesNone(s0.spaces, s0.view, s1.spaces, s1.view, q.pd, q.virt / PAGE, done, ToFrames(q.phys / PAGE, q.flags)); }
  }

  lemma ChangeServed(s0: Scene, s1: Scene, kpd: nat, q: Request, c: Change)
    requires (q.UnmapUser? && c == Removed) || (q.ProtectUser? && c == Reprotected(q.flags))
    requires KernelSideKept(s0.view, s1.view, kpd) && s1.spaces.Keys == s0.spaces.Keys && s1.used == s0.used && s1.owner == s0.owner
    requires RangeChanged(s0.view, s1.view, q.pd, q.virt / PAGE, q.size / PAGE, c)
    ensures Served(s0, s1, kpd, q)
  {
    NoneAdded(s0.spaces, s0.view, s1.spaces, s1.view, q.pd, q.virt / PAGE, q.size / PAGE, c);
    if c.Removed? || c.flags.user { HidesNone(s0.spaces, s0.view, s1.spaces, s1.view, q.pd, q.virt / PAGE, q.size / PAGE, c); }
  }

  datatype KernelOp =
    | MapKernel(virt: nat, size: nat, phys: nat, flags: Flags)
    | UnmapKernel(virt: nat, size: nat)
    | ProtectKernel(virt: nat, size: nat, flags: Flags)

  /** What an operation on the kernel half does to each of its pages. */
  ghost function ChangeOf(op: KernelOp): Change {
    match op
    case MapKernel(_, _, phys, flags) => ToFrames(phys / PAGE, flags)
    case UnmapKernel(_, _) => Removed
    case ProtectKernel(_, _, flags) => Reprotected(flags)
  }

  ghost predicate KernelAligned(op: KernelOp) {
    && KernelVm.RangeValid(op.virt, op.size) && op.virt % PAGE == 0 && op.size % PAGE == 0
    && (op.MapKernel? ==> op.phys % PAGE == 0)
  }

  /** The pages are all free for a mapping, all mapped for the other two. */
  ghost predicate KernelReady(op: KernelOp, kernel: Space) {
    if op.MapKernel? then NoneMapped(kernel, op.virt / PAGE, op.size / PAGE)
    else AllMapped(kernel, op.virt / PAGE, op.size / PAGE)
  }

  datatype Request =
    | NewSpace
    | EndSpace(pd: nat)
    | MapUser(pd: nat, virt: nat, phys: nat, size: nat, flags: Flags, haveNode: bool)
    | UnmapUser(pd: nat, virt: nat, size: nat)
    | ProtectUser(pd: nat, virt: nat, size: nat, flags: Flags)
    | Kernel(op: KernelOp)

  /** Every table was made for the user or was there before. */
  ghost predicate MoreForUser(owner: map<nat, Owner>, owner': map<nat, Owner>) {
    forall f {:trigger owner'[f]} :: f in owner' && owner'[f].TableIn? ==> owner'[f].user || (f in owner && owner'[f] == owner[f])
  }

  /** A user page whose own entry denies it to the user did so before. */
  ghost predicate NoneHidden(spaces: map<nat, seq<Vma>>, view: View, spaces': map<nat, seq<Vma>>, view': View) {
    forall p: nat, v: nat {:trigger view'[p][v]} :: p in spaces' && p in view' && v < KERNEL_PAGES && view'[p][v].Some? && !view'[p][v].value.user ==>
      p in spaces && p in view && view[p][v].Some? && !view[p][v].value.user
  }

  lemma HidesNone(spaces: map<nat, seq<Vma>>, view: View, spaces': map<nat, seq<Vma>>, view': View, pd: nat, first: nat, n: nat, c: Change)
    requires RangeChanged(view, view', pd, first, n, c) && spaces'.Keys == spaces.Keys && (c.Removed? || c.flags.user)
    ensures NoneHidden(spaces, view, spaces', view')
  {
    forall p: nat, v: nat {:trigger view'[p][v]} | p in spaces' && p in view' && v < KERNEL_PAGES && view'[p][v].Some? && !view'[p][v].value.user
      ensures p in spaces && p in view && view[p][v].Some? && !view[p][v].value.user
    {
      assert p in view.Keys && p in spaces.Keys;
      assert view'[p][v] == Changed(view, pd, first, n, c, p, v);
    }
  }

  /** Every user page was there before, on the same frame. */
  ghost predicate NoNewPages(spaces: map<nat, seq<Vma>>, view: View, spaces': map<nat, seq<Vma>>, view': View) {
    forall p: nat, v: nat {:trigger view'[p][v]} :: p in spaces' && p in view' && v < KERNEL_PAGES && view'[p][v].Some? ==>
      p in spaces && p in view && view[p][v].Some? && view'[p][v].value.frame == view[p][v].value.frame
  }

  /** Removing and reprotecting make no new page. */
  lemma NoneAdded(spaces: map<nat, seq<Vma>>, view: View, spaces': map<nat, seq<Vma>>, view': View, pd: nat, first: nat, n: nat, c: Change)
    requires RangeChanged(view, view', pd, first, n, c) && !c.ToFrames? && spaces'.Keys == spaces.Keys
    ensures NoNewPages(spaces, view, spaces', view')
  {
    forall p: nat, v: nat {:trigger view'[p][v]} | p in spaces' && p in view' && v < KERNEL_PAGES && view'[p][v].Some?
      ensures p in spaces && p in view && view[p][v].Some? && view'[p][v].value.frame == view[p][v].value.frame
    {
      assert p in view.Keys && p in spaces.Keys;
      assert view'[p][v] == Changed(view, pd, first, n, c, p, v);
    }
  }

  /** Areas only look at the user half. */
  lemma GoodSameUser(vmas: seq<Vma>, space: Space, space': Space, torn: bool)
    requires SpaceGood(vmas, space, torn) && forall v: nat :: v < KERNEL_PAGES ==> space'[v] == space[v]
    ensures SpaceGood(vmas, space', torn)
  {
    forall i, v: nat {:trigger InArea(vmas[i], v)} | 0 <= i < |vmas| && InArea(vmas[i], v)
      ensures PageHas(space', v, vmas[i].flags)
    {
      assert PageHas(space, v, vmas[i].flags);
    }
  }

  lemma KernelGood(spaces: map<nat, seq<Vma>>, view: View, view': View, torn: set<nat>, kpd: nat, first: nat, n: nat, c: Change)
    requires AllGood(spaces, view, torn) && RangeChanged(view, view', kpd, first, n, c) && kpd !in spaces
    ensures AllGood(spaces, view', torn)
    ensures SameUser(spaces, view, view')
  {
    forall p {:trigger GoodAt(spaces, view', torn, p)} | p in spaces
      ensures GoodAt(spaces, view', torn, p)
    {
      assert GoodAt(spaces, view, torn, p);
      assert forall v: nat :: v < PAGES ==> view'[p][v] == Changed(view, kpd, first, n, c, p, v);
      GoodSameUser(spaces[p], view[p], view'[p], p in torn);
    }
    forall p | p in spaces
      ensures p in view && p in view'
    {
      assert GoodAt(spaces, view, torn, p);
      assert p in view.Keys;
    }
  }

  ghost predicate SameUser(spaces: map<nat, seq<Vma>>, view: View, view': View) {
    && (forall p :: p in spaces ==> p in view && p in view')
    && forall p, v: nat {:trigger view'[p][v]} :: p in spaces && v < KERNEL_PAGES ==> view'[p][v] == view[p][v]
  }

  lemma UnmapGood(spaces: map<nat, seq<Vma>>, view: View, view': View, torn: set<nat>, pd: nat, k: nat, virt: nat, size: nat)
    requires AllGood(spaces, view, torn) && pd in spaces && pd in view && IsArea(spaces[pd], k, virt, size)
    ensures size % PAGE == 0 && AllMapped(view[pd], virt / PAGE, size / PAGE)
    ensures RangeChanged(view, view', pd, virt / PAGE, size / PAGE, Removed) ==>
      AllGood(spaces[pd := RemoveAt(spaces[pd], k)], view', torn)
  {
    var vmas := spaces[pd];
    assert GoodAt(spaces, view, torn, pd);
    AreaMapped(vmas, view[pd], k);
    assert virt / PAGE + size / PAGE == (virt + size) / PAGE;
    RemoveSorted(vmas, k);
    if RangeChanged(view, view', pd, virt / PAGE, size / PAGE, Removed) {
      OnlyThisSpace(view, view', pd, virt / PAGE, size / PAGE, Removed);
      AfterUnmap(vmas, view[pd], view'[pd], k);
      if pd !in torn { CoveredAfterUnmap(vmas, view[pd], view'[pd], k); }
      GoodAfter(spaces, view, torn, pd, RemoveAt(vmas, k), view', torn);
    }
  }

  lemma ProtectGood(spaces: map<nat, seq<Vma>>, view: View, view': View, torn: set<nat>, pd: nat, k: nat, virt: nat, size: nat,
                    flags: Flags)
    requires AllGood(spaces, view, torn) && pd in spaces && pd in view && IsArea(spaces[pd], k, virt, size)
    ensures size % PAGE == 0 && AllMapped(view[pd], virt / PAGE, size / PAGE)
    ensures RangeChanged(view, view', pd, virt / PAGE, size / PAGE, Reprotected(flags)) ==>
      AllGood(spaces[pd := spaces[pd][k := Vma(virt, virt + size, flags)]], view', torn)
  {
    var vmas := spaces[pd];
    assert GoodAt(spaces, view, torn, pd);
    AreaMapped(vmas, view[pd], k);
    assert virt / PAGE + size / PAGE == (virt + size) / PAGE;
    if RangeChanged(view, view', pd, virt / PAGE, size / PAGE, Reprotected(flags)) {
      OnlyThisSpace(view, view', pd, virt / PAGE, size / PAGE, Reprotected(flags));
      AfterProtect(vmas, view[pd], view'[pd], k, flags);
      GoodAfter(spaces, view, torn, pd, vmas[k := Vma(virt, virt + size, flags)], view', torn);
    }
  }

  /** Some area contains the range, whose end is computed in 32 bits. */
  ghost predicate Spanned(vmas: seq<Vma>, virt: nat, size: nat)
    requires virt < ADDRESSES && size < ADDRESSES
  {
    exists i :: 0 <= i < |vmas| && Spans(vmas[i], virt, End32(virt, size))
  }

  ghost predicate IsArea(vmas: seq<Vma>, k: nat, virt: nat, size: nat) {
    k < |vmas| && vmas[k].start == virt && vmas[k].end == virt + size
  }

  ghost predicate Dropped(before: seq<Vma>, after: seq<Vma>, virt: nat, size: nat) {
    exists k: nat :: IsArea(before, k, virt, size) && after == RemoveAt(before, k)
  }

  ghost predicate Reflagged(before: seq<Vma>, after: seq<Vma>, virt: nat, size: nat, flags: Flags) {
    exists k: nat :: IsArea(before, k, virt, size) && after == before[k := Vma(virt, virt + size, flags)]
  }

  /** An area that contains the range without being it leaves no room for one that is. */
  lemma OnlyArea(vmas: seq<Vma>, k: nat, virt: nat, size: nat)
    requires Sorted(vmas) && k < |vmas| && virt < ADDRESSES && 0 < size < ADDRESSES && Spans(vmas[k], virt, End32(virt, size))
    requires vmas[k].start != virt || vmas[k].end != End32(virt, size)
    ensures forall j: nat :: !IsArea(vmas, j, virt, size)
  {
  }

  lemma AreaMapped(vmas: seq<Vma>, space: Space, k: nat)
    requires Sorted(vmas) && Resident(vmas, space) && k < |vmas|
    ensures AllMapped(space, vmas[k].start / PAGE, vmas[k].end / PAGE - vmas[k].start / PAGE)
  {
    forall v: nat | InArea(vmas[k], v)
      ensures space[v].Some?
    {
      assert PageHas(space, v, vmas[k].flags);
    }
  }

  ghost predicate Fits(vmas: seq<Vma>, k: nat, a: Vma) {
    && k <= |vmas| && a.start < a.end <= USER_END && a.start % PAGE == 0 && a.end % PAGE == 0
    && (forall i :: 0 <= i < k ==> vmas[i].end <= a.start)
    && (forall i :: k <= i < |vmas| ==> a.end <= vmas[i].start)
  }

  lemma MapAreaGood(spaces: map<nat, seq<Vma>>, view: View, view': View, torn: set<nat>, torn': set<nat>,
                    pd: nat, k: nat, a: Vma, phys: nat, done: nat, ok: bool)
    requires AllGood(spaces, view, torn) && pd in spaces && pd in view && Fits(spaces[pd], k, a)
    requires RangeChanged(view, view', pd, a.start / PAGE, done, ToFrames(phys / PAGE, a.flags))
    requires a.start / PAGE + done <= a.end / PAGE && (ok ==> a.start / PAGE + done == a.end / PAGE)
    requires torn' == if ok || done == 0 then torn else torn + {pd}
    ensures Sorted(InsertAt(spaces[pd], k, a))
    ensures AllGood(spaces[pd := if ok then InsertAt(spaces[pd], k, a) else spaces[pd]], view', torn')
    ensures pd !in torn ==> NoneMapped(view[pd], a.start / PAGE, a.end / PAGE - a.start / PAGE)
  {
    var before := spaces[pd];
    assert GoodAt(spaces, view, torn, pd);
    InsertSorted(before, k, a);
    Remapped(view, view', pd, before, k, a, phys, done, ok);
    GoodAfter(spaces, view, torn, pd, if ok then InsertAt(before, k, a) else before, view', torn');
  }

  /** What mapping leaves behind: the new area when it succeeded, otherwise the old areas, still resident. */
  lemma Remapped(view: View, view': View, pd: nat, before: seq<Vma>, k: nat, a: Vma, phys: nat, done: nat, ok: bool)
    requires RangeChanged(view, view', pd, a.start / PAGE, done, ToFrames(phys / PAGE, a.flags)) && pd in view
    requires Sorted(before) && Resident(before, view[pd]) && k <= |before| && !Overlaps(before, a.start, a.end)
    requires a.start < a.end <= USER_END && a.start % PAGE == 0 && a.end % PAGE == 0
    requires a.start / PAGE + done <= a.end / PAGE && (ok ==> a.start / PAGE + done == a.end / PAGE)
    ensures forall p :: p in view && p != pd ==> view'[p] == view[p]
    ensures Resident(before, view'[pd])
    ensures ok ==> Resident(InsertAt(before, k, a), view'[pd])
    ensures ok && Covered(before, view[pd]) ==> Covered(InsertAt(before, k, a), view'[pd])
    ensures done == 0 ==> view'[pd] == view[pd]
    ensures Covered(before, view[pd]) ==> NoneMapped(view[pd], a.start / PAGE, a.end / PAGE - a.start / PAGE)
  {
    OnlyThisSpace(view, view', pd, a.start / PAGE, done, ToFrames(phys / PAGE, a.flags));
    ResidentAfterMap(before, view[pd], view'[pd], a.start, a.end, done, phys / PAGE, a.flags);
    if ok {
      ResidentInserted(before, view'[pd], k, a);
      if Covered(before, view[pd]) {
        CoveredInserted(before, view[pd], view'[pd], k, a);
      }
    }
    if Covered(before, view[pd]) {
      forall v: nat | InArea(a, v)
        ensures view[pd][v] == None
      {
        UncoveredIsFree(before, view[pd], a.start, a.end, v);
      }
    }
  }
}

/**
 * The page-table operations of `kernel/arch/x86/mm.c` on a machine with many address
 * spaces, table frames taken from the frame allocator, and a shared kernel half.
 * Every operation is stated on the abstract view and proved of the tables.
 */
module Paging {
  import opened PageTables
  import opened FrameAllocator
  import opened Bitmaps

  datatype Fault = BadArgument | NoMemory | NotMapped | AlreadyMapped
  datatype Result = Ok | Failed(fault: Fault)

  const PAGE: nat := 4096

  function PteWord(frame: nat, flags: Flags): (w: nat)
    ensures PteMapping(w) == Some(Mapping(frame, flags.write, flags.user)) && PteIs(w, FrameOf(w), Writable(w), User(w))
  {
    EntryParts(frame, PteBits(flags));
    PteBitsParts(flags);
    Entry(frame, PteBits(flags))
  }

  lemma PteBitsParts(flags: Flags)
    ensures var b := PteBits(flags); b < 128 && Present(b) && Writable(b) == flags.write && User(b) == flags.user
  {
  }

  function PdeWord(frame: nat, flags: Flags): (w: nat)
    ensures Present(w) && !LargePage(w) && Writable(w) && FrameOf(w) == frame && User(w) == flags.user && PdeIs(w, frame, flags.user)
  {
    EntryParts(frame, PdeBits(flags));
    Entry(frame, PdeBits(flags))
  }

  // ---- What a range operation does to the pages ----

  /** Map to consecutive frames, remove, or keep the frame with new permissions. */
  datatype Change = ToFrames(frame: nat, flags: Flags) | Removed | Reprotected(flags: Flags)

  /** A page table entry holds 20 bits of frame number. */
  function Low20(frame: nat): nat { frame % PAGES }

  function PageMapping(frame: nat, flags: Flags): Mapping {
    Mapping(Low20(frame), flags.write, flags.user)
  }

  /** The mapping that the `k`-th page of the range gets, given its mapping before. */
  ghost function Apply(c: Change, k: nat, before: Option<Mapping>): Option<Mapping> {
    match c
    case ToFrames(frame, flags) => Some(PageMapping(frame + k, flags))
    case Removed => None
    case Reprotected(flags) => if before.Some? then Some(Mapping(before.value.frame, flags.write, flags.user)) else None
  }

  /** Page `v` of space `p` after a change of the `n` pages from `first` on in `pd` and wherever they are shared. */
  ghost function Changed(view: View, pd: nat, first: nat, n: nat, c: Change, p: nat, v: nat): Option<Mapping>
    requires p in view && v < PAGES
  {
    if Shares(pd, p, v) && first <= v < first + n then Apply(c, v - first, view[p][v]) else view[p][v]
  }

  /** Exactly the `n` pages from `first` on changed. */
  ghost predicate RangeChanged(view: View, view': View, pd: nat, first: nat, n: nat, c: Change) {
    && view'.Keys == view.Keys
    && forall p, v: nat {:trigger view'[p][v]} :: p in view && v < PAGES ==> view'[p][v] == Changed(view, pd, first, n, c, p, v)
  }

  ghost predicate PageSet(view: View, view': View, pd: nat, page: nat, m: Option<Mapping>) {
    && view'.Keys == view.Keys
    && forall p, v: nat {:trigger view'[p][v]} :: p in view && v < PAGES ==>
         view'[p][v] == if v == page && Shares(pd, p, v) then m else view[p][v]
  }

  /** A change of the next page extends the changed range. */
  lemma RangeExtend(view: View, view1: View, view2: View, pd: nat, first: nat, n: nat, c: Change, m: Option<Mapping>)
    requires RangeChanged(view, view1, pd, first, n, c) && first + n < PAGES
    requires PageSet(view1, view2, pd, first + n, m)
    requires forall p :: p in view && Shares(pd, p, first + n) ==> m == Apply(c, n, view[p][first + n])
    ensures RangeChanged(view, view2, pd, first, n + 1, c)
  {
  }

  lemma MapNext(view: View, view1: View, view2: View, pd: nat, first: nat, n: nat, frame: nat, flags: Flags)
    requires RangeChanged(view, view1, pd, first, n, ToFrames(frame, flags)) && first + n < PAGES
    requires PageSet(view1, view2, pd, first + n, Some(PageMapping(frame + n, flags)))
    ensures RangeChanged(view, view2, pd, first, n + 1, ToFrames(frame, flags))
  {
    RangeExtend(view, view1, view2, pd, first, n, ToFrames(frame, flags), Some(PageMapping(frame + n, flags)));
  }

  lemma UnmapNext(view: View, view1: View, view2: View, pd: nat, first: nat, n: nat)
    requires RangeChanged(view, view1, pd, first, n, Removed) && first + n < PAGES
    requires PageSet(view1, view2, pd, first + n, None)
    ensures RangeChanged(view, view2, pd, first, n + 1, Removed)
  {
    RangeExtend(view, view1, view2, pd, first, n, Removed, None);
  }

  lemma ProtectNext(view: View, view1: View, view2: View, pd: nat, first: nat, n: nat, flags: Flags)
    requires RangeChanged(view, view1, pd, first, n, Reprotected(flags)) && pd in view && first + n < PAGES
    requires PageSet(view1, view2, pd, first + n, Apply(Reprotected(flags), 0, view[pd][first + n]))
    requires SharedAgree(view, pd)
    ensures RangeChanged(view, view2, pd, first, n + 1, Reprotected(flags))
  {
    RangeExtend(view, view1, view2, pd, first, n, Reprotected(flags), Apply(Reprotected(flags), 0, view[pd][first + n]));
  }

  ghost predicate SharedAgree(view: View, pd: nat)
    requires pd in view
  {
    forall p, v: nat {:trigger view[p][v]} :: p in view && v < PAGES && Shares(pd, p, v) ==> view[p][v] == view[pd][v]
  }

  /** The page after the changed range is as it was. */
  lemma RangeAhead(view: View, view1: View, pd: nat, first: nat, n: nat, c: Change)
    requires RangeChanged(view, view1, pd, first, n, c) && pd in view && first + n < PAGES
    ensures view1[pd][first + n] == view[pd][first + n]
  {
  }

  lemma RangeNothing(view: View, pd: nat, first: nat, c: Change)
    ensures RangeChanged(view, view, pd, first, 0, c)
  {
  }

  /** Frames came into use only as new tables of `pd`; everything else kept its state. */
  ghost predicate TablesGrown(used: seq<bool>, used': seq<bool>, owner: map<nat, Owner>, owner': map<nat, Owner>, pd: nat) {
    && |used'| == |used|
    && (forall f :: f in owner ==> f in owner' && owner'[f] == owner[f])
    && (forall f :: f in owner' && f !in owner ==> owner'[f].TableIn? && owner'[f].pd == pd && f < |used| && !used[f])
    && (forall f: nat :: f < |used| ==> used'[f] == (used[f] || (f in owner' && f !in owner)))
  }

  lemma GrownTwice(u0: seq<bool>, u1: seq<bool>, u2: seq<bool>,
                   o0: map<nat, Owner>, o1: map<nat, Owner>, o2: map<nat, Owner>, pd: nat)
    requires TablesGrown(u0, u1, o0, o1, pd) && TablesGrown(u1, u2, o1, o2, pd)
    ensures TablesGrown(u0, u2, o0, o2, pd)
  {
  }

  lemma InstallGrows(used: seq<bool>, owner: map<nat, Owner>, f: nat, pd: nat, i: nat, user: bool)
    requires FreshFrame(used, f) && f !in owner
    ensures TablesGrown(used, used[f := true], owner, owner[f := TableIn(pd, i, user)], pd)
  {
  }

  /** New tables were all made for the user, or none was. */
  ghost predicate TablesFor(owner: map<nat, Owner>, owner': map<nat, Owner>, user: bool) {
    forall f {:trigger owner'[f]} :: f in owner' && f !in owner && owner'[f].TableIn? ==> owner'[f].user == user
  }

  /** Growing tables changes nothing about the frames that hold none, nor about the kernel's tables. */
  lemma GrownHeld(used: seq<bool>, used': seq<bool>, owner: map<nat, Owner>, owner': map<nat, Owner>, pd: nat, kpd: nat)
    requires TablesGrown(used, used', owner, owner', pd) && pd != kpd
    ensures SameHeld(used, owner, used', owner') && SameKernelTables(owner, owner', kpd)
  {
  }

  lemma DestroyHeld(used: seq<bool>, used': seq<bool>, owner: map<nat, Owner>, pd: nat, kpd: nat)
    requires FreedExactly(used, used', owner, pd) && pd != kpd
    ensures SameHeld(used, owner, used', Disown(owner, pd)) && SameKernelTables(owner, Disown(owner, pd), kpd)
  {
  }

  lemma CreateHeld(used: seq<bool>, owner: map<nat, Owner>, pd: nat, kpd: nat)
    requires pd < |used| && !used[pd] && pd !in owner && pd != kpd
    ensures SameHeld(used, owner, used[pd := true], owner[pd := Directory])
    ensures SameKernelTables(owner, owner[pd := Directory], kpd)
  {
  }

  /** The page has a table, or low memory has a frame for one. */
  ghost predicate CanReach(mem: Memory, used: seq<bool>, pd: nat, page: nat)
    requires pd in mem && page < PAGES
  {
    Present(mem[pd][page / ENTRIES]) || !NoLowFrame(used)
  }

  ghost predicate NoneMapped(space: Space, first: nat, n: nat) {
    first + n <= PAGES && forall v :: first <= v < first + n ==> space[v] == None
  }

  ghost predicate AllMapped(space: Space, first: nat, n: nat) {
    first + n <= PAGES && forall v :: first <= v < first + n ==> space[v].Some?
  }

  /** The frames of the tables in the slots below `n` of `pd` have been freed, and no others. */
  ghost predicate FreedBelow(used: seq<bool>, used': seq<bool>, owner: map<nat, Owner>, pd: nat, n: nat) {
    && |used'| == |used|
    && forall f: nat {:trigger used'[f]} :: f < |used| ==> used'[f] == (used[f] && !TableBelow(owner, pd, n, f))
  }

  ghost predicate TableBelow(owner: map<nat, Owner>, pd: nat, n: nat, f: nat) {
    f in owner && owner[f].TableIn? && owner[f].pd == pd && owner[f].index < n
  }

  lemma FreedNext(used: seq<bool>, used1: seq<bool>, used2: seq<bool>, mem: Memory, kpd: nat, dirs: set<nat>,
                  owner: map<nat, Owner>, ready: nat, pd: nat, i: nat)
    requires Sound(mem, used, kpd, dirs, owner, ready) && pd in dirs && pd != kpd && i < KERNEL_BASE
    requires FreedBelow(used, used1, owner, pd, i)
    requires if Present(mem[pd][i])
      then FrameOf(mem[pd][i]) < |used1| && used2 == Fill(used1, FrameOf(mem[pd][i]), 1, false)
      else used2 == used1
    ensures FreedBelow(used, used2, owner, pd, i + 1)
  {
    if Present(mem[pd][i]) {
      TableIsNoDirectory(mem, used, kpd, dirs, owner, ready, pd, i);
    }
    forall f: nat {:trigger used2[f]} | f < |used|
      ensures used2[f] == (used[f] && !TableBelow(owner, pd, i + 1, f))
    {
      assert f in owner ==> OwnerOk(mem, kpd, dirs, owner, f);
      assert used1[f] == (used[f] && !TableBelow(owner, pd, i, f));
    }
  }

  lemma FreedAll(used: seq<bool>, used1: seq<bool>, used2: seq<bool>, mem: Memory, kpd: nat, dirs: set<nat>,
                 owner: map<nat, Owner>, ready: nat, pd: nat)
    requires Sound(mem, used, kpd, dirs, owner, ready) && pd in dirs && pd != kpd
    requires FreedBelow(used, used1, owner, pd, KERNEL_BASE)
    requires pd < |used1| && used2 == Fill(used1, pd, 1, false)
    ensures FreedExactly(used, used2, owner, pd)
  {
    forall f: nat | f < |used|
      ensures used2[f] == (used[f] && !Owns(owner, pd, f))
    {
      assert f in owner ==> OwnerOk(mem, kpd, dirs, owner, f);
      assert used1[f] == (used[f] && !TableBelow(owner, pd, KERNEL_BASE, f));
    }
  }

  ghost predicate SameFrame(mem: Memory, mem': Memory, f: nat) {
    f in mem && f in mem' && mem'[f] == mem[f]
  }

  /** Frames that nobody owns keep their contents. */
  ghost predicate DataKept(mem: Memory, mem': Memory, owner: map<nat, Owner>) {
    forall f: nat {:trigger SameFrame(mem, mem', f)} :: f in mem && f !in owner ==> SameFrame(mem, mem', f)
  }

  lemma KeptTwice(mem0: Memory, mem1: Memory, mem2: Memory, owner1: map<nat, Owner>, owner2: map<nat, Owner>)
    requires DataKept(mem0, mem1, owner1) && DataKept(mem1, mem2, owner2) && forall f :: f in owner1 ==> f in owner2
    ensures DataKept(mem0, mem2, owner2)
  {
    forall f: nat {:trigger SameFrame(mem0, mem2, f)} | f in mem0 && f !in owner2
      ensures SameFrame(mem0, mem2, f)
    {
      assert SameFrame(mem0, mem1, f) && SameFrame(mem1, mem2, f);
    }
  }

  /** What a mapping operation changes. */
  datatype State = State(mem: Memory, view: View, used: seq<bool>, owner: map<nat, Owner>)

  /** `n` pages have been mapped since `s0`, none of which was mapped before; perhaps there is a table for the next. */
  ghost predicate MapStopped(s0: State, s1: State, pd: nat, first: nat, n: nat, frame: nat, flags: Flags) {
    && pd in s0.view && TablesGrown(s0.used, s1.used, s0.owner, s1.owner, pd) && DataKept(s0.mem, s1.mem, s1.owner)
    && RangeChanged(s0.view, s1.view, pd, first, n, ToFrames(frame, flags))
    && NoneMapped(s0.view[pd], first, n) && TablesFor(s0.owner, s1.owner, flags.user)
    && pd in s0.mem && (n > 0 ==> CanReach(s0.mem, s0.used, pd, first))
  }

  ghost predicate MapProgress(s0: State, s1: State, pd: nat, first: nat, n: nat, frame: nat, flags: Flags) {
    MapStopped(s0, s1, pd, first, n, frame, flags) && (n == 0 ==> s1 == s0)
  }

  lemma MapStarts(s0: State, pd: nat, first: nat, frame: nat, flags: Flags)
    requires pd in s0.view && pd in s0.mem && first <= PAGES
    ensures MapProgress(s0, s0, pd, first, 0, frame, flags)
  {
  }

  /** One page has been mapped, or none, and at most a table was made for it; why it failed. */
  ghost predicate PageTried(s1: State, s2: State, kpd: nat, pd: nat, page: nat, frame: nat, flags: Flags, r: Result) {
    && page < PAGES && pd in s1.view && pd in s1.mem && (pd == kpd ==> s2.owner == s1.owner)
    && TablesGrown(s1.used, s2.used, s1.owner, s2.owner, pd) && DataKept(s1.mem, s2.mem, s2.owner) && TablesFor(s1.owner, s2.owner, flags.user)
    && if r == Ok then
         s1.view[pd][page] == None && PageSet(s1.view, s2.view, pd, page, Some(PageMapping(frame, flags))) && CanReach(s1.mem, s1.used, pd, page)
       else s2.view == s1.view && FailsFor(s1, s2, kpd, pd, page, r)
  }

  /** The page is mapped, or there is neither a table nor a low frame for it. */
  ghost predicate FailsFor(s1: State, s2: State, kpd: nat, pd: nat, page: nat, r: Result)
    requires page < PAGES && pd in s1.view && pd in s1.mem
  {
    if s1.view[pd][page].Some? then r == Failed(AlreadyMapped)
    else r == Failed(NoMemory) && !CanReach(s1.mem, s1.used, pd, page) && pd != kpd && NoLowFrame(s2.used)
  }

  /** `n` pages have been mapped, and the next one failed. */
  ghost predicate MapHalted(s0: State, s1: State, kpd: nat, pd: nat, first: nat, n: nat, frame: nat, flags: Flags, r: Result) {
    && MapStopped(s0, s1, pd, first, n, frame, flags) && first + n < PAGES
    && (if s0.view[pd][first + n].Some? then r == Failed(AlreadyMapped) else r == Failed(NoMemory) && pd != kpd && NoLowFrame(s1.used))
    && (n == 0 && r == Failed(NoMemory) ==> !CanReach(s0.mem, s0.used, pd, first))
  }

  /** One more page, or none when it failed. */
  lemma MapAdvances(s0: State, s1: State, s2: State, kpd: nat, pd: nat, first: nat, n: nat, frame: nat, flags: Flags, r: Result)
    requires MapProgress(s0, s1, pd, first, n, frame, flags) && PageTried(s1, s2, kpd, pd, first + n, frame + n, flags, r)
    ensures if r == Ok then MapProgress(s0, s2, pd, first, n + 1, frame, flags) else MapHalted(s0, s2, kpd, pd, first, n, frame, flags, r)
  {
    GrownTwice(s0.used, s1.used, s2.used, s0.owner, s1.owner, s2.owner, pd);
    KeptTwice(s0.mem, s1.mem, s2.mem, s1.owner, s2.owner);
    RangeAhead(s0.view, s1.view, pd, first, n, ToFrames(frame, flags));
    if r == Ok {
      MapNext(s0.view, s1.view, s2.view, pd, first, n, frame, flags);
    }
  }

  /** A table that was not there before is a new one. */
  lemma NewTable(mem: Memory, used: seq<bool>, dirs: set<nat>, owner: map<nat, Owner>,
                 mem': Memory, used': seq<bool>, dirs': set<nat>, owner': map<nat, Owner>, kpd: nat, pd: nat, i: nat)
    requires Sound(mem, used, kpd, dirs, owner, ENTRIES) && Sound(mem', used', kpd, dirs', owner', ENTRIES)
    requires pd in dirs && pd in dirs' && pd != kpd && i < KERNEL_BASE && !Present(mem[pd][i]) && Present(mem'[pd][i])
    requires TablesGrown(used, used', owner, owner', pd)
    ensures FrameOf(mem'[pd][i]) in owner' && FrameOf(mem'[pd][i]) !in owner
  {
    TableIsNoDirectory(mem', used', kpd, dirs', owner', ENTRIES, pd, i);
    var f := FrameOf(mem'[pd][i]);
    assert f in owner ==> OwnerOk(mem, kpd, dirs, owner, f);
  }

  /**
   * The words behind a mapping: page `k` of the range has exactly the address of frame `frame + k`, cut to 32 bits, with
   * present, writable and user; and every new directory entry has exactly its table's address with present, writable and user.
   */
  ghost predicate WordsMapped(mem: Memory, mem': Memory, pd: nat, first: nat, n: nat, frame: nat, flags: Flags)
    requires pd in mem && pd in mem' && first + n <= PAGES
  {
    && (forall v: nat {:trigger WordAt(mem', pd, v)} :: first <= v < first + n ==>
          WordAt(mem', pd, v) == (frame + (v - first)) % 0x10_0000 * 4096 + 1 + (if flags.write then 2 else 0) + (if flags.user then 4 else 0))
    && (forall i: nat {:trigger mem'[pd][i]} :: i < 1024 && !Present(mem[pd][i]) && Present(mem'[pd][i]) ==>
          mem'[pd][i] == mem'[pd][i] / 4096 * 4096 + 3 + (if flags.user then 4 else 0))
  }

  lemma WordsAfterMap(s0: State, s1: State, kpd: nat, pd: nat, first: nat, n: nat, frame: nat, flags: Flags)
    requires Sound(s0.mem, s0.used, kpd, s0.view.Keys, s0.owner, ENTRIES) && pd in s0.view && first + n <= PAGES
    requires Sound(s1.mem, s1.used, kpd, s1.view.Keys, s1.owner, ENTRIES) && Refines(s1.mem, s1.view)
    requires TablesGrown(s0.used, s1.used, s0.owner, s1.owner, pd) && TablesFor(s0.owner, s1.owner, flags.user)
    requires RangeChanged(s0.view, s1.view, pd, first, n, ToFrames(frame, flags))
    ensures pd in s0.mem && pd in s1.mem && WordsMapped(s0.mem, s1.mem, pd, first, n, frame, flags)
  {
    assert pd in s1.view.Keys;
    forall v: nat {:trigger WordAt(s1.mem, pd, v)} | first <= v < first + n
      ensures WordAt(s1.mem, pd, v) == (frame + (v - first)) % 0x10_0000 * 4096 + 1 + (if flags.write then 2 else 0) + (if flags.user then 4 else 0)
    {
      assert s1.view[pd][v] == Changed(s0.view, pd, first, n, ToFrames(frame, flags), pd, v);
      WordExact(s1.mem, s1.used, kpd, s1.owner, ENTRIES, s1.view, pd, v);
    }
    forall i: nat {:trigger s1.mem[pd][i]} | i < 1024 && !Present(s0.mem[pd][i]) && Present(s1.mem[pd][i])
      ensures s1.mem[pd][i] == s1.mem[pd][i] / 4096 * 4096 + 3 + (if flags.user then 4 else 0)
    {
      assert SameSlot(s0.mem, kpd, pd, i) || i < KERNEL_BASE;
      DirectoryWordExact(s1.mem, s1.used, kpd, s1.view.Keys, s1.owner, ENTRIES, pd, i);
      NewTable(s0.mem, s0.used, s0.view.Keys, s0.owner, s1.mem, s1.used, s1.view.Keys, s1.owner, kpd, pd, i);
    }
  }

  /** The words behind new permissions: the frame's address as before, and present, writable and user by the flags. */
  ghost predicate WordsProtected(mem: Memory, mem': Memory, pd: nat, first: nat, n: nat, flags: Flags)
    requires pd in mem && pd in mem' && first + n <= PAGES
  {
    forall v: nat {:trigger WordAt(mem', pd, v)} :: first <= v < first + n ==>
      WordAt(mem', pd, v) == WordAt(mem, pd, v) / 4096 * 4096 + 1 + (if flags.write then 2 else 0) + (if flags.user then 4 else 0)
  }

  lemma WordsAfterProtect(s0: State, s1: State, kpd: nat, pd: nat, first: nat, n: nat, flags: Flags)
    requires Sound(s0.mem, s0.used, kpd, s0.view.Keys, s0.owner, ENTRIES) && Refines(s0.mem, s0.view) && pd in s0.view && first + n <= PAGES
    requires Sound(s1.mem, s1.used, kpd, s1.view.Keys, s1.owner, ENTRIES) && Refines(s1.mem, s1.view)
    requires RangeChanged(s0.view, s1.view, pd, first, n, Reprotected(flags)) && AllMapped(s0.view[pd], first, n)
    ensures pd in s0.mem && pd in s1.mem && WordsProtected(s0.mem, s1.mem, pd, first, n, flags)
  {
    assert pd in s1.view.Keys;
    forall v: nat {:trigger WordAt(s1.mem, pd, v)} | first <= v < first + n
      ensures WordAt(s1.mem, pd, v) == WordAt(s0.mem, pd, v) / 4096 * 4096 + 1 + (if flags.write then 2 else 0) + (if flags.user then 4 else 0)
    {
      assert s1.view[pd][v] == Changed(s0.view, pd, first, n, Reprotected(flags), pd, v);
      WordExact(s0.mem, s0.used, kpd, s0.owner, ENTRIES, s0.view, pd, v);
      WordExact(s1.mem, s1.used, kpd, s1.owner, ENTRIES, s1.view, pd, v);
      var m := s0.view[pd][v].value;
      Over4096(m.frame, 1 + (if m.writable then 2 else 0) + (if m.user then 4 else 0));
    }
  }

  /** The words of removed pages are zero. */
  ghost predicate WordsCleared(mem: Memory, pd: nat, first: nat, n: nat)
    requires pd in mem && first + n <= PAGES
  {
    forall v: nat {:trigger WordAt(mem, pd, v)} :: first <= v < first + n ==> WordAt(mem, pd, v) == 0
  }

  lemma WordsAfterUnmap(s0: State, s1: State, kpd: nat, pd: nat, first: nat, n: nat)
    requires Sound(s1.mem, s1.used, kpd, s1.view.Keys, s1.owner, ENTRIES) && Refines(s1.mem, s1.view) && pd in s0.view && first + n <= PAGES
    requires RangeChanged(s0.view, s1.view, pd, first, n, Removed)
    ensures pd in s1.mem && WordsCleared(s1.mem, pd, first, n)
  {
    assert pd in s1.view.Keys;
    forall v: nat {:trigger WordAt(s1.mem, pd, v)} | first <= v < first + n ensures WordAt(s1.mem, pd, v) == 0 {
      assert s1.view[pd][v] == Changed(s0.view, pd, first, n, Removed, pd, v);
      WordExact(s1.mem, s1.used, kpd, s1.owner, ENTRIES, s1.view, pd, v);
    }
  }

  class Mmu {
    var mem: Memory
    const pmm: Pmm
    const kernelPd: nat
    /** What every live directory, the kernel's included, maps. */
    ghost var view: View
    ghost var owner: map<nat, Owner>
    ghost var ready: nat

    ghost predicate Preparing()
      reads this, pmm, pmm.bm, pmm.bm.data
    {
      && pmm.Valid() && Refines(mem, view)
      && Sound(mem, pmm.bm.bits, kernelPd, view.Keys, owner, ready)
    }

    ghost predicate Valid()
      reads this, pmm, pmm.bm, pmm.bm.data
    {
      Preparing() && ready == ENTRIES
    }

    ghost function Now(): State
      reads this, pmm, pmm.bm
    {
      State(mem, view, pmm.bm.bits, owner)
    }

    /** Where `pd` may be mapped: the kernel space above the split, a process space below. */
    ghost predicate InHalf(pd: nat, first: nat, n: nat)
      reads this
    {
      && pd in view && first + n <= PAGES
      && if pd == kernelPd then KERNEL_PAGES <= first else first + n <= KERNEL_PAGES
    }

    // ---- One page ----

    /** Makes sure that the slot of `page` has a table; a new table is empty. */
    method EnsureTable(pd: nat, page: nat, flags: Flags) returns (ok: bool)
      requires Valid() && InHalf(pd, page, 1)
      modifies this`mem, this`owner, pmm, pmm.bm`bits, pmm.bm.data
      ensures Valid() && TablesGrown(old(pmm.bm.bits), pmm.bm.bits, old(owner), owner, pd)
      ensures DataKept(old(mem), mem, owner)
      ensures ok ==> Present(mem[pd][page / ENTRIES])
      ensures ok <==> CanReach(old(mem), old(pmm.bm.bits), pd, page)
      ensures TablesFor(old(owner), owner, flags.user)
      ensures !ok ==> view[pd][page] == None && pd != kernelPd && NoLowFrame(pmm.bm.bits)
      ensures pd == kernelPd ==> owner == old(owner)
    {
      var i := page / ENTRIES;
      assert Lookup(mem, pd, page) == view[pd][page];
      if Present(mem[pd][i]) {
        return true;
      }
      ghost var used := pmm.bm.bits;
      var r := pmm.AllocLowmem(1);
      if r.NoFrames? {
        return false;
      }
      var f := r.addr / PAGE;
      var e := PdeWord(f, flags);
      assert pmm.bm.bits == used[f := true];
      assert f in owner ==> Allocated(used, f);
      InstallGrows(used, owner, f, pd, i, flags.user);
      InstallSound(mem, used, kernelPd, view.Keys, owner, ready, f, pd, i, e);
      InstallRefines(mem, used, kernelPd, owner, ready, view, f, pd, i, e);
      assert WithTable(mem, f, pd, i, e) == WithEntry(mem[f := Zeros()], pd, i, e);
      mem := mem[f := Zeros()];
      mem := WithEntry(mem, pd, i, e);
      owner := owner[f := TableIn(pd, i, flags.user)];
      return true;
    }

    /** Writes the entry of `page`, whose slot has a table. */
    method StoreEntry(pd: nat, page: nat, w: nat)
      requires Valid() && pd in view && page < PAGES && Present(mem[pd][page / ENTRIES])
      requires w == 0 || PteIs(w, FrameOf(w), Writable(w), User(w))
      modifies this`mem, this`view
      ensures Valid() && PageSet(old(view), view, pd, page, PteMapping(w))
      ensures DataKept(old(mem), mem, owner)
    {
      TableIsNoDirectory(mem, pmm.bm.bits, kernelPd, view.Keys, owner, ready, pd, page / ENTRIES);
      StoreSound(mem, pmm.bm.bits, kernelPd, view.Keys, owner, ready, pd, page / ENTRIES, page % ENTRIES, w);
      StoreRefines(mem, pmm.bm.bits, kernelPd, owner, ready, view, pd, page, w);
      var pt := FrameOf(mem[pd][page / ENTRIES]);
      mem := WithEntry(mem, pt, page % ENTRIES, w);
      view := SetPage(view, pd, page, PteMapping(w));
      assert view.Keys == old(view.Keys);
    }

    /** Reads the entry of `page`. */
    method LoadEntry(pd: nat, page: nat) returns (hasTable: bool, w: nat)
      requires Valid() && pd in view && page < PAGES
      ensures hasTable <==> Present(mem[pd][page / ENTRIES])
      ensures view[pd][page] == if hasTable then PteMapping(w) else None
    {
      assert Lookup(mem, pd, page) == view[pd][page];
      var pde := mem[pd][page / ENTRIES];
      w := 0;
      hasTable := Present(pde);
      if hasTable {
        TableIsNoDirectory(mem, pmm.bm.bits, kernelPd, view.Keys, owner, ready, pd, page / ENTRIES);
        w := mem[FrameOf(pde)][page % ENTRIES];
      }
    }

    method MapPage(pd: nat, page: nat, frame: nat, flags: Flags) returns (r: Result)
      requires Valid() && InHalf(pd, page, 1)
      modifies this`mem, this`view, this`owner, pmm, pmm.bm`bits, pmm.bm.data
      ensures Valid() && PageTried(old(Now()), Now(), kernelPd, pd, page, frame, flags, r)
    {
      var ok := EnsureTable(pd, page, flags);
      if !ok {
        return Failed(NoMemory);
      }
      var hasTable, pte := LoadEntry(pd, page);
      if Present(pte) {
        return Failed(AlreadyMapped);
      }
      var w := PteWord(Low20(frame), flags);
      ghost var mem1 := mem;
      StoreEntry(pd, page, w);
      KeptTwice(old(mem), mem1, mem, owner, owner);
      return Ok;
    }

    method UnmapPage(pd: nat, page: nat) returns (r: Result)
      requires Valid() && pd in view && page < PAGES
      modifies this`mem, this`view
      ensures Valid()
      ensures r == if old(view)[pd][page].Some? then Ok else Failed(NotMapped)
      ensures if r == Ok then PageSet(old(view), view, pd, page, None) else view == old(view)
    {
      var hasTable, pte := LoadEntry(pd, page);
      if !hasTable || !Present(pte) {
        return Failed(NotMapped);
      }
      StoreEntry(pd, page, 0);
      return Ok;
    }

    method ProtectPage(pd: nat, page: nat, flags: Flags) returns (r: Result)
      requires Valid() && pd in view && page < PAGES
      modifies this`mem, this`view
      ensures Valid()
      ensures r == if old(view)[pd][page].Some? then Ok else Failed(NotMapped)
      ensures if r == Ok then PageSet(old(view), view, pd, page, Apply(Reprotected(flags), 0, old(view)[pd][page])) else view == old(view)
    {
      var hasTable, pte := LoadEntry(pd, page);
      if !hasTable || !Present(pte) {
        return Failed(NotMapped);
      }
      StoreEntry(pd, page, PteWord(FrameOf(pte), flags));
      return Ok;
    }

    // ---- Ranges ----

    /** `arch_vm_map`, which is not atomic: after a failure the first `done` pages stay mapped. */
    method Map(pd: nat, virt: nat, phys: nat, size: nat, flags: Flags) returns (r: Result, done: nat)
      requires Valid() && InHalf(pd, virt / PAGE, size / PAGE)
      modifies this`mem, this`view, this`owner, pmm, pmm.bm`bits, pmm.bm.data
      ensures Valid() && TablesGrown(old(pmm.bm.bits), pmm.bm.bits, old(owner), owner, pd)
      ensures r == Failed(BadArgument) <==> size == 0 || virt % PAGE != 0 || phys % PAGE != 0 || size % PAGE != 0
      ensures DataKept(old(mem), mem, owner)
      ensures RangeChanged(old(view), view, pd, virt / PAGE, done, ToFrames(phys / PAGE, flags))
      ensures NoneMapped(old(view)[pd], virt / PAGE, done)
      ensures r == Ok ==> done == size / PAGE
      ensures r == Failed(BadArgument) ==> done == 0
      ensures r == Failed(AlreadyMapped) ==> done < size / PAGE && old(view)[pd][virt / PAGE + done].Some?
      ensures r == Failed(NoMemory) ==> done < size / PAGE && old(view)[pd][virt / PAGE + done] == None
      ensures r == Ok || r == Failed(BadArgument) || r == Failed(AlreadyMapped) || r == Failed(NoMemory)
      ensures r != Ok && r != Failed(BadArgument) ==>
        (done == 0 <==> old(view)[pd][virt / PAGE].Some? || !CanReach(old(mem), old(pmm.bm.bits), pd, virt / PAGE))
      ensures TablesFor(old(owner), owner, flags.user)
      ensures r == Failed(NoMemory) ==> pd != kernelPd && NoLowFrame(pmm.bm.bits)
      ensures pd == kernelPd ==> owner == old(owner)
      ensures done <= size / PAGE
      ensures pd in old(mem) && pd in mem && WordsMapped(old(mem), mem, pd, virt / 4096, done, phys / 4096, flags)
    {
      ghost var s0 := Now();
      if size == 0 || virt % PAGE != 0 || phys % PAGE != 0 || size % PAGE != 0 {
        RangeNothing(view, pd, virt / PAGE, ToFrames(phys / PAGE, flags));
        return Failed(BadArgument), 0;
      }
      r, done := MapPages(pd, virt / PAGE, phys / PAGE, size / PAGE, flags);
      WordsAfterMap(s0, Now(), kernelPd, pd, virt / PAGE, done, phys / PAGE, flags);
    }

    method MapPages(pd: nat, first: nat, frame: nat, n: nat, flags: Flags) returns (r: Result, done: nat)
      requires Valid() && InHalf(pd, first, n)
      modifies this`mem, this`view, this`owner, pmm, pmm.bm`bits, pmm.bm.data
      ensures Valid()
      ensures if r == Ok then done == n && MapStopped(old(Now()), Now(), pd, first, n, frame, flags)
        else done < n && MapHalted(old(Now()), Now(), kernelPd, pd, first, done, frame, flags, r)
      ensures pd == kernelPd ==> owner == old(owner)
    {
      ghost var s0 := Now();
      done := 0;
      MapStarts(s0, pd, first, frame, flags);
      while done < n
        invariant 0 <= done <= n && Valid() && pd in view
        invariant MapProgress(s0, Now(), pd, first, done, frame, flags)
        invariant pd == kernelPd ==> owner == s0.owner
      {
        r := MapNextPage(pd, first, frame, done, flags, s0);
        if r != Ok {
          return;
        }
        done := done + 1;
      }
      r := Ok;
    }

    /** One round of the loop. */
    method MapNextPage(pd: nat, first: nat, frame: nat, done: nat, flags: Flags, ghost s0: State) returns (r: Result)
      requires Valid() && InHalf(pd, first, done + 1)
      requires MapProgress(s0, Now(), pd, first, done, frame, flags)
      modifies this`mem, this`view, this`owner, pmm, pmm.bm`bits, pmm.bm.data
      ensures Valid() && pd in view && (pd == kernelPd ==> owner == old(owner))
      ensures if r == Ok then MapProgress(s0, Now(), pd, first, done + 1, frame, flags)
        else MapHalted(s0, Now(), kernelPd, pd, first, done, frame, flags, r)
    {
      ghost var s1 := Now();
      r := MapPage(pd, first + done, frame + done, flags);
      MapAdvances(s0, s1, Now(), kernelPd, pd, first, done, frame, flags, r);
    }

    /** Pages shared between spaces have the same mapping in each. */
    lemma SharedSame(pd: nat)
      requires Valid() && pd in view
      ensures SharedAgree(view, pd)
    {
      forall p, v: nat {:trigger view[p][v]} | p in view && v < PAGES && Shares(pd, p, v)
        ensures view[p][v] == view[pd][v]
      {
        if v >= KERNEL_PAGES {
          KernelHalfShared(mem, pmm.bm.bits, kernelPd, owner, view, p, v);
          KernelHalfShared(mem, pmm.bm.bits, kernelPd, owner, view, pd, v);
        }
      }
    }

    /** `arch_vm_unmap`: stops at the first page that is not mapped; the `done` pages before it are gone. */
    method Unmap(pd: nat, virt: nat, size: nat) returns (r: Result, done: nat)
      requires Valid() && pd in view && virt / PAGE + size / PAGE <= PAGES
      modifies this`mem, this`view
      ensures Valid()
      ensures r == Failed(BadArgument) <==> size == 0 || virt % PAGE != 0 || size % PAGE != 0
      ensures RangeChanged(old(view), view, pd, virt / PAGE, done, Removed)
      ensures AllMapped(old(view)[pd], virt / PAGE, done)
      ensures r == Ok ==> done == size / PAGE
      ensures r == Failed(BadArgument) ==> done == 0
      ensures r == Failed(NotMapped) ==> done < size / PAGE && old(view)[pd][virt / PAGE + done] == None
      ensures (r == Ok || r == Failed(BadArgument) || r == Failed(NotMapped)) && done <= size / PAGE
      ensures pd in mem && WordsCleared(mem, pd, virt / 4096, done)
    {
      ghost var s0 := Now();
      if size == 0 || virt % PAGE != 0 || size % PAGE != 0 {
        RangeNothing(view, pd, virt / PAGE, Removed);
        return Failed(BadArgument), 0;
      }
      r, done := UnmapPages(pd, virt / PAGE, size / PAGE);
      WordsAfterUnmap(s0, Now(), kernelPd, pd, virt / PAGE, done);
    }

    method UnmapPages(pd: nat, first: nat, n: nat) returns (r: Result, done: nat)
      requires Valid() && pd in view && first + n <= PAGES
      modifies this`mem, this`view
      ensures Valid() && done <= n && RangeChanged(old(view), view, pd, first, done, Removed) && AllMapped(old(view)[pd], first, done)
      ensures if done == n then r == Ok else r == Failed(NotMapped) && old(view)[pd][first + done] == None
    {
      done := 0;
      RangeNothing(view, pd, first, Removed);
      ghost var view0 := view;
      while done < n
        invariant 0 <= done <= n && Valid() && pd in view
        invariant RangeChanged(view0, view, pd, first, done, Removed)
        invariant AllMapped(view0[pd], first, done)
      {
        ghost var view1 := view;
        RangeAhead(view0, view, pd, first, done, Removed);
        r := UnmapPage(pd, first + done);
        if r != Ok {
          return;
        }
        UnmapNext(view0, view1, view, pd, first, done);
        done := done + 1;
      }
      r := Ok;
    }

    /** `arch_vm_protect`: keeps the frames, replaces the permissions. */
    method Protect(pd: nat, virt: nat, size: nat, flags: Flags) returns (r: Result, done: nat)
      requires Valid() && pd in view && virt / PAGE + size / PAGE <= PAGES
      modifies this`mem, this`view
      ensures Valid()
      ensures r == Failed(BadArgument) <==> size == 0 || virt % PAGE != 0 || size % PAGE != 0
      ensures RangeChanged(old(view), view, pd, virt / PAGE, done, Reprotected(flags))
      ensures AllMapped(old(view)[pd], virt / PAGE, done)
      ensures r == Ok ==> done == size / PAGE
      ensures r == Failed(BadArgument) ==> done == 0
      ensures r == Failed(NotMapped) ==> done < size / PAGE && old(view)[pd][virt / PAGE + done] == None
      ensures (r == Ok || r == Failed(BadArgument) || r == Failed(NotMapped)) && done <= size / PAGE
      ensures pd in old(mem) && pd in mem && WordsProtected(old(mem), mem, pd, virt / 4096, done, flags)
    {
      ghost var s0 := Now();
      if size == 0 || virt % PAGE != 0 || size % PAGE != 0 {
        RangeNothing(view, pd, virt / PAGE, Reprotected(flags));
        return Failed(BadArgument), 0;
      }
      r, done := ProtectPages(pd, virt / PAGE, size / PAGE, flags);
      WordsAfterProtect(s0, Now(), kernelPd, pd, virt / PAGE, done, flags);
    }

    method ProtectPages(pd: nat, first: nat, n: nat, flags: Flags) returns (r: Result, done: nat)
      requires Valid() && pd in view && first + n <= PAGES
      modifies this`mem, this`view
      ensures Valid() && done <= n && RangeChanged(old(view), view, pd, first, done, Reprotected(flags)) && AllMapped(old(view)[pd], first, done)
      ensures if done == n then r == Ok else r == Failed(NotMapped) && old(view)[pd][first + done] == None
    {
      done := 0;
      RangeNothing(view, pd, first, Reprotected(flags));
      ghost var view0 := view;
      SharedSame(pd);
      while done < n
        invariant 0 <= done <= n && Valid() && pd in view
        invariant RangeChanged(view0, view, pd, first, done, Reprotected(flags))
        invariant AllMapped(view0[pd], first, done)
      {
        ghost var view1 := view;
        RangeAhead(view0, view, pd, first, done, Reprotected(flags));
        r := ProtectPage(pd, first + done, flags);
        if r != Ok {
          return;
        }
        ProtectNext(view0, view1, view, pd, first, done, flags);
        done := done + 1;
      }
      r := Ok;
    }

    /** `arch_vm_translate` */
    method Translate(pd: nat, virt: nat) returns (phys: Option<nat>)
      requires Valid() && pd in view && virt < PAGES * PAGE
      ensures phys == match view[pd][virt / PAGE]
        case None => None
        case Some(m) => Some(m.frame * PAGE + virt % PAGE)
    {
      var hasTable, pte := LoadEntry(pd, virt / PAGE);
      if !hasTable || !Present(pte) {
        return None;
      }
      return Some(FrameOf(pte) * PAGE + virt % PAGE);
    }

    // ---- Whole spaces ----

    /** `arch_vm_kernel_prepare`: a table for each of the 256 kernel slots. */
    method KernelPrepare() returns (r: Result)
      requires Preparing() && ready == KERNEL_BASE && view.Keys == {kernelPd}
      modifies this`mem, this`owner, this`ready, pmm, pmm.bm`bits, pmm.bm.data
      ensures Preparing() && (r == Ok ==> Valid()) && (r != Ok ==> r == Failed(NoMemory) && NoLowFrame(pmm.bm.bits))
    {
      for i := KERNEL_BASE to ENTRIES
        invariant Preparing() && ready == i && view == old(view)
      {
        ghost var used := pmm.bm.bits;
        var a := pmm.AllocLowmem(1);
        if a.NoFrames? {
          return Failed(NoMemory);
        }
        var f := a.addr / PAGE;
        assert pmm.bm.bits == used[f := true];
        var e := PdeWord(f, Flags(false, true, false, false, false));
        InstallSound(mem, used, kernelPd, view.Keys, owner, ready, f, kernelPd, i, e);
        InstallRefines(mem, used, kernelPd, owner, ready, view, f, kernelPd, i, e);
        assert f in owner ==> Allocated(used, f);
        assert WithTable(mem, f, kernelPd, i, e) == WithEntry(mem[f := Zeros()], kernelPd, i, e);
        mem := mem[f := Zeros()];
        mem := WithEntry(mem, kernelPd, i, e);
        owner := owner[f := TableIn(kernelPd, i, false)];
        ready := i + 1;
      }
      r := Ok;
    }

    /** `arch_vm_space_init` and `vm_kern_attach`: a directory with the kernel's entries and nothing else. */
    method SpaceInit() returns (pd: Option<nat>)
      requires Valid()
      modifies this`mem, this`view, this`owner, pmm, pmm.bm`bits, pmm.bm.data
      ensures Valid()
      ensures pd == None ==> mem == old(mem) && view == old(view) && owner == old(owner) && pmm.bm.bits == old(pmm.bm.bits)
      ensures pd == None ==> NoLowFrame(pmm.bm.bits)
      ensures pd.Some? ==> FreshFrame(old(pmm.bm.bits), pd.value) && pmm.bm.bits == old(pmm.bm.bits)[pd.value := true]
      ensures pd.Some? ==> owner == old(owner)[pd.value := Directory] && pd.value !in old(owner)
      ensures pd.Some? ==> FirstRun(old(pmm.bm.bits), 0, LowEnd(pmm.bm.nbits), 1, pd.value)
      ensures pd.Some? ==> Attached(old(mem), kernelPd, mem[pd.value])
      ensures pd.Some? ==> pd.value !in old(view) && view == old(view)[pd.value := KernelOnly(old(view)[kernelPd])]
    {
      ghost var used := pmm.bm.bits;
      var r := pmm.AllocLowmem(1);
      if r.NoFrames? {
        return None;
      }
      var f := r.addr / PAGE;
      assert pmm.bm.bits == used[f := true];
      assert f in owner ==> Allocated(used, f);
      ghost var mem0 := mem;
      mem := mem[f := Zeros()];
      AttachKernel(f, mem0);
      DirectorySound(mem0, used, kernelPd, view.Keys, owner, ready, f, mem[f]);
      DirectoryRefines(mem0, used, kernelPd, owner, ready, view, f, mem[f]);
      view := view[f := KernelOnly(view[kernelPd])];
      owner := owner[f := Directory];
      assert view.Keys == old(view).Keys + {f};
      return Some(f);
    }

    /** `arch_vm_space_attach_kernel`: copies the kernel's 256 entries. */
    method AttachKernel(f: nat, ghost mem0: Memory)
      requires kernelPd in mem0 && f != kernelPd && mem == mem0[f := Zeros()]
      modifies this`mem
      ensures f in mem && mem == mem0[f := mem[f]] && Attached(mem0, kernelPd, mem[f])
    {
      for i := KERNEL_BASE to ENTRIES
        invariant f in mem && mem == mem0[f := mem[f]]
        invariant forall k: nat :: k < ENTRIES ==> mem[f][k] == if k < KERNEL_BASE || k >= i then 0 else mem0[kernelPd][k]
      {
        mem := WithEntry(mem, f, i, mem[kernelPd][i]);
      }
    }

    /**
     * `arch_vm_space_destroy`: never fails, gives back exactly the frames that the space owns,
     * and leaves every other space as it was.
     */
    method SpaceDestroy(pd: nat) returns (r: Result)
      requires Valid() && pd in view && pd != kernelPd
      modifies this`view, this`owner, pmm, pmm.bm`bits, pmm.bm.data
      ensures Valid() && r == Ok
      ensures FreedExactly(old(pmm.bm.bits), pmm.bm.bits, old(owner), pd)
      ensures view == old(view) - {pd} && owner == Disown(old(owner), pd)
    {
      ghost var used := pmm.bm.bits;
      r := FreeTables(pd);
      assert Allocated(used, pd);
      assert AddrToFrame(pd * PAGE) == pd;
      ghost var used1 := pmm.bm.bits;
      var s := pmm.Free(pd * PAGE, 1);
      r := if s == Status.Done then r else Failed(BadArgument);
      FreedAll(used, used1, pmm.bm.bits, mem, kernelPd, view.Keys, owner, ready, pd);
      DestroySound(mem, used, pmm.bm.bits, kernelPd, view.Keys, owner, ready, pd);
      view := view - {pd};
      owner := Disown(owner, pd);
      assert view.Keys == old(view).Keys - {pd};
    }

    /** The loop over the private slots. */
    method FreeTables(pd: nat) returns (r: Result)
      requires Valid() && pd in view && pd != kernelPd
      modifies pmm, pmm.bm`bits, pmm.bm.data
      ensures pmm.Valid() && r == Ok
      ensures FreedBelow(old(pmm.bm.bits), pmm.bm.bits, owner, pd, KERNEL_BASE)
    {
      ghost var used := pmm.bm.bits;
      ghost var dirs := view.Keys;
      r := Ok;
      for i := 0 to KERNEL_BASE
        invariant pmm.Valid() && FreedBelow(used, pmm.bm.bits, owner, pd, i)
        invariant Sound(mem, used, kernelPd, dirs, owner, ready) && r == Ok
      {
        var pde := mem[pd][i];
        ghost var used1 := pmm.bm.bits;
        assert PdeOk(mem, kernelPd, owner, pd, i);
        if Present(pde) && !LargePage(pde) {
          var pt := FrameOf(pde);
          TableIsNoDirectory(mem, used, kernelPd, dirs, owner, ready, pd, i);
          assert Allocated(used, pt);
          assert AddrToFrame(pt * PAGE) == pt;
          var s := pmm.Free(pt * PAGE, 1);
          r := if s == Status.Done then r else Failed(BadArgument);
          FreedNext(used, used1, pmm.bm.bits, mem, kernelPd, dirs, owner, ready, pd, i);
        } else {
          FreedNext(used, used1, pmm.bm.bits, mem, kernelPd, dirs, owner, ready, pd, i);
        }
      }
    }

    /** The machine with only the kernel's directory, allocated and zeroed. */
    constructor (pmm: Pmm, mem: Memory, pd: nat)
      requires pmm.Valid() && Ram(mem, |pmm.bm.bits|)
      requires Allocated(pmm.bm.bits, pd) && mem[pd] == Zeros()
      ensures Preparing() && ready == KERNEL_BASE
      ensures this.pmm == pmm && this.mem == mem && kernelPd == pd && owner == map[pd := Directory]
      ensures view == map[pd := Empty()]
    {
      this.pmm := pmm;
      this.mem := mem;
      kernelPd := pd;
      view, owner, ready := map[pd := Empty()], map[pd := Directory], KERNEL_BASE;
    }
  }

  ghost function Empty(): Space {
    seq(PAGES, _ => None)
  }
}

/**
 * Kernel stacks (`kernel/mm/kernel_stack.c`): slots above the direct map, four pages each.  An allocation that
 * runs out of frames part-way leaves its pages in a slot that still counts as free; all of that is modelled.
 */
module KernelStacks {
  import opened Bitmaps
  import opened PageTables
  import opened FrameAllocator
  import opened Paging
  import KernelVm

  const SLOTS: nat := 64
  const STACK_PAGES: nat := 4
  const STACK_BASE: nat := 0xF000_0000
  const BASE_PAGE: nat := 0xF_0000

  /** A stack descriptor; all zero when it describes no stack. */
  datatype Stack = Stack(base: nat, size: nat)
  datatype Grant = Granted(stack: Stack) | AlreadyGranted | NoSlot | NoFrame | SlotTaken

  function SlotBase(pos: nat): nat { STACK_BASE + STACK_PAGES * pos * PAGE }
  function SlotPage(pos: nat, i: nat): nat { BASE_PAGE + STACK_PAGES * pos + i }

  const StackFlags: Flags := Flags(true, true, false, false, true)

  ghost predicate IsSlotPage(v: nat) { BASE_PAGE <= v < BASE_PAGE + SLOTS * STACK_PAGES }

  /** Distinct slots are disjoint and lie above the direct map, inside the address space. */
  lemma SlotsApart(p: nat, i: nat, q: nat, j: nat)
    requires p < SLOTS && q < SLOTS && i < STACK_PAGES && j < STACK_PAGES
    ensures SlotPage(p, i) == SlotPage(q, j) <==> p == q && i == j
    ensures IsSlotPage(SlotPage(p, i)) && KERNEL_PAGES + KernelVm.DIRECT_PAGES <= SlotPage(p, i) < PAGES
  {
  }

  // ---- What the pool has ----

  /** Stack pages to their frames. */
  type Backing = map<nat, nat>

  /** The mapped pages; frames taken in vain; and the pages that failed allocations left in each free slot. */
  datatype Ledger = Ledger(backing: Backing, lost: set<nat>, stuck: seq<nat>)

  /** The parts of the machine that stacks touch. */
  datatype Side = Side(view: View, used: seq<bool>, owner: map<nat, Owner>, l: Ledger)

  /** The slots map exactly the recorded frames; those and the lost ones are in use, no tables, and all different. */
  ghost predicate SlotsGood(space: Space, used: seq<bool>, owner: map<nat, Owner>, l: Ledger) {
    && (forall v {:trigger v in l.backing} :: v in l.backing ==> IsSlotPage(v) && Held(used, owner, l.backing[v]))
    && (forall v: nat {:trigger space[v]} :: IsSlotPage(v) ==>
          space[v] == if v in l.backing then Some(Mapping(l.backing[v], true, false)) else None)
    && (forall v, w {:trigger l.backing[v], l.backing[w]} ::
          v in l.backing && w in l.backing && l.backing[v] == l.backing[w] ==> v == w)
    && (forall f {:trigger f in l.lost} :: f in l.lost ==> Held(used, owner, f) && f !in l.backing.Values)
  }

  /** How many pages of the slot are mapped: all of a live one, and what was left in a free one. */
  ghost function Depth(bits: seq<bool>, stuck: seq<nat>, pos: nat): nat
    requires pos < |bits| && pos < |stuck|
  {
    if bits[pos] then STACK_PAGES else stuck[pos]
  }

  ghost predicate DepthAt(bits: seq<bool>, l: Ledger, pos: nat) {
    && pos < |bits| && pos < |l.stuck| && l.stuck[pos] < STACK_PAGES && (bits[pos] ==> l.stuck[pos] == 0)
    && forall i: nat {:trigger SlotPage(pos, i)} :: i < STACK_PAGES ==>
         (SlotPage(pos, i) in l.backing <==> i < Depth(bits, l.stuck, pos))
  }

  ghost predicate DepthsGood(bits: seq<bool>, l: Ledger) {
    && |bits| == |l.stuck| == SLOTS
    && forall pos: nat {:trigger DepthAt(bits, l, pos)} :: pos < SLOTS ==> DepthAt(bits, l, pos)
  }

  ghost predicate SideGood(s: Side, kpd: nat) {
    kpd in s.view && SlotsGood(s.view[kpd], s.used, s.owner, s.l)
  }

  /** Live stacks share no frame. */
  lemma StacksApart(s: Side, kpd: nat, bits: seq<bool>, p: nat, i: nat, q: nat, j: nat)
    requires SideGood(s, kpd) && DepthsGood(bits, s.l)
    requires p < SLOTS && q < SLOTS && i < STACK_PAGES && j < STACK_PAGES && bits[p] && bits[q] && p != q
    ensures SlotPage(p, i) in s.l.backing && SlotPage(q, j) in s.l.backing
    ensures s.l.backing[SlotPage(p, i)] != s.l.backing[SlotPage(q, j)]
  {
    SlotsApart(p, i, q, j);
    assert DepthAt(bits, s.l, p) && DepthAt(bits, s.l, q);
  }

  // ---- What stacks leave alone ----

  /** A frame in use for anything but stacks. */
  ghost predicate Elsewhere(used: seq<bool>, l: Ledger, f: nat) {
    f < |used| && used[f] && f !in l.backing.Values && f !in l.lost
  }

  /** The user half of every space is the same. */
  ghost predicate UserSame(view: View, view': View) {
    && view'.Keys == view.Keys
    && forall p, v: nat {:trigger view'[p][v]} :: p in view && v < KERNEL_PAGES ==> view'[p][v] == view[p][v]
  }

  /** Two states differ in their stacks only: user halves, other kernel pages, other frames and tables are the same. */
  ghost predicate OnlyStacks(s0: Side, s1: Side, kpd: nat) {
    && kpd in s0.view && kpd in s1.view && UserSame(s0.view, s1.view) && s1.owner == s0.owner && |s1.used| == |s0.used|
    && (forall f: nat {:trigger Elsewhere(s1.used, s1.l, f)} :: Elsewhere(s1.used, s1.l, f) <==> Elsewhere(s0.used, s0.l, f))
    && (forall v: nat {:trigger s1.view[kpd][v]} :: v < PAGES && !IsSlotPage(v) ==> s1.view[kpd][v] == s0.view[kpd][v])
  }

  lemma OnlyStacksNothing(s: Side, kpd: nat)
    requires kpd in s.view
    ensures OnlyStacks(s, s, kpd)
  {
  }

  lemma OnlyStacksTwice(s0: Side, s1: Side, s2: Side, kpd: nat)
    requires OnlyStacks(s0, s1, kpd) && OnlyStacks(s1, s2, kpd)
    ensures OnlyStacks(s0, s2, kpd)
  {
    forall f: nat {:trigger Elsewhere(s2.used, s2.l, f)} ensures Elsewhere(s2.used, s2.l, f) <==> Elsewhere(s0.used, s0.l, f) {
      assert Elsewhere(s1.used, s1.l, f) <==> Elsewhere(s0.used, s0.l, f);
    }
    forall p, v: nat {:trigger s2.view[p][v]} | p in s0.view && v < KERNEL_PAGES
      ensures p in s2.view && s2.view[p][v] == s0.view[p][v]
    {
      assert p in s1.view.Keys && p in s2.view.Keys;
    }
  }

  /** The stacks determine the rest: with the same ledger, frames and kernel pages are the same. */
  lemma SameLedgerSameState(s0: Side, s1: Side, kpd: nat)
    requires OnlyStacks(s0, s1, kpd) && SideGood(s0, kpd) && SideGood(s1, kpd) && s1.l == s0.l
    ensures s1.used == s0.used && s1.view[kpd] == s0.view[kpd]
  {
    forall f: nat | f < |s0.used| ensures s1.used[f] == s0.used[f] {
      assert Elsewhere(s1.used, s1.l, f) <==> Elsewhere(s0.used, s0.l, f);
      if f in s0.l.backing.Values {
        var v :| v in s0.l.backing && s0.l.backing[v] == f;
        assert Held(s0.used, s0.owner, s0.l.backing[v]) && Held(s1.used, s1.owner, s1.l.backing[v]);
      }
    }
    forall v: nat | v < PAGES ensures s1.view[kpd][v] == s0.view[kpd][v] {
    }
  }

  /** Whatever keeps the kernel's space and the frames that hold no table keeps the stacks. */
  lemma StacksKept(s0: Side, view: View, used: seq<bool>, owner: map<nat, Owner>, kpd: nat)
    requires SideGood(s0, kpd) && kpd in view && view[kpd] == s0.view[kpd] && |used| == |s0.used|
    requires forall f: nat {:trigger Held(used, owner, f)} :: Held(s0.used, s0.owner, f) ==> Held(used, owner, f)
    ensures SideGood(Side(view, used, owner, s0.l), kpd)
  {
    forall v {:trigger v in s0.l.backing} | v in s0.l.backing ensures IsSlotPage(v) && Held(used, owner, s0.l.backing[v]) {
      assert Held(s0.used, s0.owner, s0.l.backing[v]);
    }
    forall f {:trigger f in s0.l.lost} | f in s0.l.lost ensures Held(used, owner, f) && f !in s0.l.backing.Values {
      assert Held(s0.used, s0.owner, f);
    }
  }

  // ---- One page ----

  ghost function WithPage(s: Side, view: View, page: nat, f: nat): Side
    requires f < |s.used|
  {
    s.(view := view, used := s.used[f := true], l := s.l.(backing := s.l.backing[page := f]))
  }

  ghost function WithLost(s: Side, f: nat): Side
    requires f < |s.used|
  {
    s.(used := s.used[f := true], l := s.l.(lost := s.l.lost + {f}))
  }

  ghost function WithoutPage(s: Side, view: View, page: nat): Side
    requires page in s.l.backing && s.l.backing[page] < |s.used|
  {
    s.(view := view, used := s.used[s.l.backing[page] := false], l := s.l.(backing := s.l.backing - {page}))
  }

  ghost predicate Unused(s: Side, f: nat) {
    f < |s.used| && !s.used[f] && f !in s.owner
  }

  lemma UnusedNowhere(s: Side, kpd: nat, f: nat)
    requires SideGood(s, kpd) && Unused(s, f)
    ensures f !in s.l.backing.Values && f !in s.l.lost
  {
    forall v | v in s.l.backing ensures s.l.backing[v] != f {
      assert Held(s.used, s.owner, s.l.backing[v]);
    }
  }

  /** One more page of a slot, mapped to a fresh frame. */
  lemma PageAdded(s: Side, view: View, kpd: nat, page: nat, f: nat)
    requires SideGood(s, kpd) && IsSlotPage(page) && page !in s.l.backing && Unused(s, f)
    requires PageSet(s.view, view, kpd, page, Some(Mapping(f, true, false)))
    ensures SideGood(WithPage(s, view, page, f), kpd) && OnlyStacks(s, WithPage(s, view, page, f), kpd)
  {
    var s1 := WithPage(s, view, page, f);
    UnusedNowhere(s, kpd, f);
    assert kpd in view.Keys;
    forall v | v in s.l.backing ensures s.l.backing[v] != f {
    }
    forall g {:trigger g in s1.l.lost} | g in s1.l.lost ensures Held(s1.used, s1.owner, g) && g !in s1.l.backing.Values {
      assert g in s.l.lost;
    }
    assert s1.l.backing.Values == s.l.backing.Values + {f} by { ValuesAdded(s.l.backing, page, f); }
  }

  lemma ValuesAdded(b: Backing, page: nat, f: nat)
    requires page !in b
    ensures b[page := f].Values == b.Values + {f}
  {
    var b' := b[page := f];
    forall g | g in b.Values + {f} ensures g in b'.Values {
      if g == f {
        assert b'[page] == g;
      } else {
        var v :| v in b && b[v] == g;
        assert v in b' && b'[v] == g;
      }
    }
  }

  /** A frame taken for a page that is already mapped is lost. */
  lemma FrameLost(s: Side, kpd: nat, f: nat)
    requires SideGood(s, kpd) && Unused(s, f)
    ensures SideGood(WithLost(s, f), kpd) && OnlyStacks(s, WithLost(s, f), kpd)
  {
    UnusedNowhere(s, kpd, f);
  }

  /** One page of a slot gone, and its frame given back. */
  lemma PageDropped(s: Side, view: View, kpd: nat, page: nat)
    requires SideGood(s, kpd) && page in s.l.backing && PageSet(s.view, view, kpd, page, None)
    ensures s.l.backing[page] < |s.used|
    ensures SideGood(WithoutPage(s, view, page), kpd) && OnlyStacks(s, WithoutPage(s, view, page), kpd)
  {
    var f := s.l.backing[page];
    var s1 := WithoutPage(s, view, page);
    assert kpd in view.Keys && f in s.l.backing.Values;
    forall v | v in s.l.backing && v != page ensures s.l.backing[v] != f {
    }
    assert s1.l.backing.Values == s.l.backing.Values - {f} by { ValuesDropped(s.l.backing, page); }
  }

  lemma ValuesDropped(b: Backing, page: nat)
    requires page in b && forall v, w {:trigger b[v], b[w]} :: v in b && w in b && b[v] == b[w] ==> v == w
    ensures (b - {page}).Values == b.Values - {b[page]}
  {
    var b' := b - {page};
    forall g | g in b.Values && g != b[page] ensures g in b'.Values {
      var v :| v in b && b[v] == g;
      assert v in b' && b'[v] == g;
    }
    forall g | g in b'.Values ensures g in b.Values && g != b[page] {
      var v :| v in b' && b'[v] == g;
      assert v in b && b[v] == g;
    }
  }

  /** A page of a slot got a fresh frame; or it had one, and the frame taken for it is lost; or there is no frame. */
  ghost predicate Tried(s: Side, s1: Side, kpd: nat, page: nat, a: PageAnswer) {
    && OnlyStacks(s, s1, kpd) && (a == OutOfFrames <==> NoFrameLeft(s.used))
    && match a
       case OutOfFrames => s1 == s
       case Exists => page in s.l.backing && exists f: nat :: Unused(s, f) && s1 == WithLost(s, f)
       case Added => page !in s.l.backing && page in s1.l.backing && s1.l == s.l.(backing := s.l.backing[page := s1.l.backing[page]])
  }

  // ---- Whole slots ----

  /** The first `n` pages of the slot have been added, everything else kept. */
  ghost predicate Grown(b: Backing, b': Backing, pos: nat, n: nat) {
    && (forall v: nat {:trigger v in b'} :: v in b' <==> v in b || SlotPage(pos, 0) <= v < SlotPage(pos, 0) + n)
    && (forall v {:trigger b'[v]} :: v in b ==> b'[v] == b[v])
  }

  /** A slot that had no page has `n` now, as a live slot or as a free one. */
  lemma DepthsAfterAlloc(bits: seq<bool>, l: Ledger, b': Backing, pos: nat, n: nat)
    requires DepthsGood(bits, l) && Grown(l.backing, b', pos, n) && pos < SLOTS && !bits[pos] && l.stuck[pos] == 0 && n <= STACK_PAGES
    ensures n == STACK_PAGES ==> DepthsGood(bits[pos := true], l.(backing := b'))
    ensures n < STACK_PAGES ==> DepthsGood(bits, l.(backing := b', stuck := l.stuck[pos := n]))
  {
    var bits', l' := if n == STACK_PAGES then bits[pos := true] else bits,
                     if n == STACK_PAGES then l.(backing := b') else l.(backing := b', stuck := l.stuck[pos := n]);
    forall q: nat {:trigger DepthAt(bits', l', q)} | q < SLOTS ensures DepthAt(bits', l', q) {
      assert DepthAt(bits, l, q);
      forall i: nat {:trigger SlotPage(q, i)} | i < STACK_PAGES ensures SlotPage(q, i) in b' <==> i < Depth(bits', l'.stuck, q) {
        assert SlotPage(q, i) in l.backing <==> i < Depth(bits, l.stuck, q);
      }
    }
  }

  ghost function Without(b: Backing, pos: nat, n: nat): Backing {
    map v | v in b && !(SlotPage(pos, 0) <= v < SlotPage(pos, 0) + n) :: b[v]
  }

  lemma WithoutNext(bits: seq<bool>, l: Ledger, pos: nat, i: nat)
    requires DepthsGood(bits, l) && pos < SLOTS && bits[pos] && i < STACK_PAGES
    ensures SlotPage(pos, i) in Without(l.backing, pos, i)
    ensures Without(l.backing, pos, i) - {SlotPage(pos, i)} == Without(l.backing, pos, i + 1)
  {
    assert DepthAt(bits, l, pos);
    assert SlotPage(pos, i) in l.backing;
  }

  lemma DepthsAfterFree(bits: seq<bool>, l: Ledger, pos: nat)
    requires DepthsGood(bits, l) && pos < SLOTS && bits[pos]
    ensures DepthsGood(bits[pos := false], l.(backing := Without(l.backing, pos, STACK_PAGES)))
  {
    var bits', l' := bits[pos := false], l.(backing := Without(l.backing, pos, STACK_PAGES));
    forall q: nat {:trigger DepthAt(bits', l', q)} | q < SLOTS ensures DepthAt(bits', l', q) {
      assert DepthAt(bits, l, q);
      forall i: nat {:trigger SlotPage(q, i)} | i < STACK_PAGES ensures SlotPage(q, i) in l'.backing <==> i < Depth(bits', l'.stuck, q) {
        assert SlotPage(q, i) in l.backing <==> i < Depth(bits, l.stuck, q);
      }
    }
  }

  lemma Restored(bits: seq<bool>, l: Ledger, b1: Backing, pos: nat)
    requires DepthsGood(bits, l) && pos < SLOTS && !bits[pos] && l.stuck[pos] == 0 && Grown(l.backing, b1, pos, STACK_PAGES)
    ensures Without(b1, pos, STACK_PAGES) == l.backing && bits[pos := true][pos := false] == bits
  {
    assert DepthAt(bits, l, pos);
    forall v: nat | SlotPage(pos, 0) <= v < SlotPage(pos, 0) + STACK_PAGES ensures v !in l.backing {
      assert v == SlotPage(pos, v - SlotPage(pos, 0));
    }
    assert Without(b1, pos, STACK_PAGES).Keys == l.backing.Keys;
  }

  /** With no live stack and nothing left in the slots, no page is backed. */
  lemma NoneBacked(s: Side, kpd: nat, bits: seq<bool>)
    requires SideGood(s, kpd) && DepthsGood(bits, s.l)
    requires forall pos: nat {:trigger bits[pos]} :: pos < SLOTS ==> !bits[pos] && s.l.stuck[pos] == 0
    ensures s.l.backing == map[]
  {
    forall v: nat ensures v !in s.l.backing {
      if IsSlotPage(v) {
        var pos, i := (v - BASE_PAGE) / STACK_PAGES, (v - BASE_PAGE) % STACK_PAGES;
        assert v == SlotPage(pos, i) && DepthAt(bits, s.l, pos);
      }
    }
    assert s.l.backing.Keys == {};
  }

  datatype PageAnswer = Added | OutOfFrames | Exists

  class StackPool {
    const mmu: Mmu
    const bm: Bitmap
    ghost var l: Ledger

    ghost predicate Wired()
      reads this, mmu, mmu.pmm, mmu.pmm.bm, mmu.pmm.bm.data, bm, bm.data
    {
      && mmu.Valid() && bm.Valid() && bm.nbits == SLOTS && mmu.pmm.bm.nbits <= PAGES
      && bm != mmu.pmm.bm && bm.data != mmu.pmm.bm.data
    }

    ghost function Now(): Side
      reads this, mmu, mmu.pmm, mmu.pmm.bm
    {
      Side(mmu.view, mmu.pmm.bm.bits, mmu.owner, l)
    }

    ghost predicate PagesGood()
      reads this, mmu, mmu.pmm, mmu.pmm.bm, mmu.pmm.bm.data, bm, bm.data
    {
      Wired() && SideGood(Now(), mmu.kernelPd)
    }

    ghost predicate Valid()
      reads this, mmu, mmu.pmm, mmu.pmm.bm, mmu.pmm.bm.data, bm, bm.data
    {
      PagesGood() && DepthsGood(bm.bits, l)
    }

    constructor (mmu: Mmu)
      requires mmu.Valid() && mmu.pmm.bm.nbits <= PAGES
      requires forall v: nat :: IsSlotPage(v) ==> mmu.view[mmu.kernelPd][v] == None
      ensures Valid() && this.mmu == mmu && fresh(bm) && fresh(bm.data)
      ensures l == Ledger(map[], {}, seq(SLOTS, _ => 0)) && bm.bits == seq(SLOTS, _ => false)
    {
      this.mmu := mmu;
      bm := new Bitmap(SLOTS);
      l := Ledger(map[], {}, seq(SLOTS, _ => 0));
      new;
      bm.ClearAll();
      assert bm.bits == seq(SLOTS, _ => false);
      forall pos: nat {:trigger DepthAt(bm.bits, l, pos)} | pos < SLOTS ensures DepthAt(bm.bits, l, pos) {
      }
    }

    // ---- One page ----

    /** `PMM_ALLOC_ANY(1)`: the frame belongs to nobody, so the tables stay sound. */
    method TakeFrame() returns (found: bool, f: nat)
      requires Wired()
      modifies mmu.pmm, mmu.pmm.bm`bits, mmu.pmm.bm.data
      ensures Wired()
      ensures found ==> Unused(old(Now()), f) && Now() == old(Now()).(used := old(mmu.pmm.bm.bits)[f := true])
      ensures !found ==> Now() == old(Now())
      ensures found <==> !NoFrameLeft(old(mmu.pmm.bm.bits))
      ensures found <==> old(mmu.pmm.freeFrames) > 0
      ensures mmu.pmm.freeFrames == old(mmu.pmm.freeFrames) - if found then 1 else 0
    {
      ghost var used := mmu.pmm.bm.bits;
      CountNone(used);
      var a := mmu.pmm.AllocAny(1);
      found := a.Run?;
      f := if a.Run? then a.addr / PAGE else 0;
      assert found ==> mmu.pmm.bm.bits == used[f := true];
      assert forall f :: f in mmu.owner ==> Allocated(used, f);
      UsedSound(mmu.mem, used, mmu.pmm.bm.bits, mmu.kernelPd, mmu.view.Keys, mmu.owner, mmu.ready);
    }

    /** `vm_kern_map` of one stack page; refused exactly if it is mapped. */
    method MapFrame(page: nat, f: nat) returns (ok: bool)
      requires Wired() && IsSlotPage(page) && f < PAGES
      modifies mmu`mem, mmu`view, mmu`owner, mmu.pmm, mmu.pmm.bm`bits, mmu.pmm.bm.data
      ensures Wired() && Now() == old(Now()).(view := mmu.view)
      ensures ok <==> old(mmu.view)[mmu.kernelPd][page] == None
      ensures mmu.pmm.freeFrames == old(mmu.pmm.freeFrames)
      ensures if ok then PageSet(old(mmu.view), mmu.view, mmu.kernelPd, page, Some(Mapping(f, true, false))) else mmu.view == old(mmu.view)
    {
      assert (page * PAGE) / PAGE == page && (f * PAGE) / PAGE == f && Low20(f) == f;
      ghost var view := mmu.view;
      var r, done := KernelVm.Map(mmu, page * PAGE, f * PAGE, PAGE, StackFlags);
      ok := r == Ok;
      OnePageSet(view, mmu.view, mmu.kernelPd, page, done, f);
    }

    /** One iteration of the allocation loop. */
    method TryPage(page: nat) returns (a: PageAnswer)
      requires PagesGood() && IsSlotPage(page)
      modifies this`l, mmu`mem, mmu`view, mmu`owner, mmu.pmm, mmu.pmm.bm`bits, mmu.pmm.bm.data
      ensures PagesGood() && Tried(old(Now()), Now(), mmu.kernelPd, page, a)
      ensures a == OutOfFrames <==> old(mmu.pmm.freeFrames) == 0
      ensures mmu.pmm.freeFrames == old(mmu.pmm.freeFrames) - if a == OutOfFrames then 0 else 1
    {
      ghost var s, kpd := Now(), mmu.kernelPd;
      var found, f := TakeFrame();
      if !found {
        OnlyStacksNothing(s, kpd);
        return OutOfFrames;
      }
      var ok := MapFrame(page, f);
      if ok {
        PageAdded(s, mmu.view, kpd, page, f);
        l := l.(backing := l.backing[page := f]);
        assert Now() == WithPage(s, mmu.view, page, f);
        return Added;
      }
      FrameLost(s, kpd, f);
      l := l.(lost := l.lost + {f});
      assert Now() == WithLost(s, f);
      return Exists;
    }

    method UnmapPage(page: nat)
      requires Wired() && IsSlotPage(page) && mmu.view[mmu.kernelPd][page].Some?
      modifies mmu`mem, mmu`view
      ensures Wired() && Now() == old(Now()).(view := mmu.view)
      ensures PageSet(old(mmu.view), mmu.view, mmu.kernelPd, page, None)
    {
      assert (page * PAGE) / PAGE == page;
      ghost var view := mmu.view;
      var r, done := KernelVm.Unmap(mmu, page * PAGE, PAGE);
      OnePageGone(view, mmu.view, mmu.kernelPd, page);
    }

    method GiveFrame(phys: nat, ghost f: nat)
      requires Wired() && phys == f * PAGE && Held(mmu.pmm.bm.bits, mmu.owner, f)
      modifies mmu.pmm, mmu.pmm.bm`bits, mmu.pmm.bm.data
      ensures Wired() && Now() == old(Now()).(used := old(mmu.pmm.bm.bits)[f := false])
    {
      ghost var used := mmu.pmm.bm.bits;
      assert AddrToFrame(phys) == f;
      var s := mmu.pmm.Free(phys, 1);
      assert mmu.pmm.bm.bits == used[f := false];
      assert forall f :: f in mmu.owner ==> Allocated(used, f);
      UsedSound(mmu.mem, used, mmu.pmm.bm.bits, mmu.kernelPd, mmu.view.Keys, mmu.owner, mmu.ready);
    }

    /** One iteration of the release loop: translate, unmap, give the frame back; none of the three can fail. */
    method DropPage(page: nat)
      requires PagesGood() && page in l.backing
      modifies this`l, mmu`mem, mmu`view, mmu.pmm, mmu.pmm.bm`bits, mmu.pmm.bm.data
      ensures PagesGood() && OnlyStacks(old(Now()), Now(), mmu.kernelPd)
      ensures l == old(l).(backing := old(l).backing - {page})
    {
      ghost var s, f := Now(), l.backing[page];
      assert s.view[mmu.kernelPd][page] == Some(Mapping(f, true, false)) && Held(s.used, s.owner, f);
      assert (page * PAGE) / PAGE == page;
      var phys := KernelVm.Translate(mmu, page * PAGE);
      assert phys == Some(f * PAGE);
      UnmapPage(page);
      GiveFrame(phys.value, f);
      PageDropped(s, mmu.view, mmu.kernelPd, page);
      l := l.(backing := l.backing - {page});
      assert Now() == WithoutPage(s, mmu.view, page);
    }

    // ---- Whole stacks ----

    /** The allocation loop over the pages of a slot. */
    method TryPages(pos: nat) returns (a: PageAnswer, ghost n: nat)
      requires PagesGood() && DepthsGood(bm.bits, l) && pos < SLOTS && !bm.bits[pos]
      modifies this`l, mmu`mem, mmu`view, mmu`owner, mmu.pmm, mmu.pmm.bm`bits, mmu.pmm.bm.data
      ensures PagesGood() && OnlyStacks(old(Now()), Now(), mmu.kernelPd) && n <= STACK_PAGES
      ensures a == Exists <==> !NoFrameLeft(old(mmu.pmm.bm.bits)) && old(l).stuck[pos] > 0
      ensures a == Exists ==> exists f: nat :: Unused(old(Now()), f) && Now() == WithLost(old(Now()), f)
      ensures a == OutOfFrames ==> NoFrameLeft(mmu.pmm.bm.bits) && n < STACK_PAGES && (old(l).stuck[pos] > 0 ==> n == 0)
      ensures a == Added ==> n == STACK_PAGES <= old(mmu.pmm.freeFrames) && old(l).stuck[pos] == 0
      ensures a == OutOfFrames ==> n == old(mmu.pmm.freeFrames)
      ensures a == Exists ==> old(mmu.pmm.freeFrames) > 0
      ensures a != Exists ==> Grown(old(l).backing, l.backing, pos, n) && l == old(l).(backing := l.backing)
    {
      ghost var s, free := Now(), mmu.pmm.freeFrames;
      OnlyStacksNothing(s, mmu.kernelPd);
      a, n := Added, 0;
      for i := 0 to STACK_PAGES
        invariant PagesGood() && n == i && a == Added && Trying(s, Now(), mmu.kernelPd, pos, i)
        invariant mmu.pmm.freeFrames + i == free
      {
        a := TryNext(pos, i, s);
        if a != Added {
          return;
        }
        n := i + 1;
      }
    }

    /** One round of that loop. */
    method TryNext(pos: nat, i: nat, ghost s: Side) returns (a: PageAnswer)
      requires PagesGood() && DepthsGood(bm.bits, s.l) && pos < SLOTS && !bm.bits[pos] && i < STACK_PAGES
      requires Trying(s, Now(), mmu.kernelPd, pos, i)
      modifies this`l, mmu`mem, mmu`view, mmu`owner, mmu.pmm, mmu.pmm.bm`bits, mmu.pmm.bm.data
      ensures PagesGood() && OnlyStacks(s, Now(), mmu.kernelPd)
      ensures a == Added ==> s.l.stuck[pos] == 0 && Trying(s, Now(), mmu.kernelPd, pos, i + 1)
      ensures a == OutOfFrames ==> Trying(s, Now(), mmu.kernelPd, pos, i) && NoFrameLeft(mmu.pmm.bm.bits)
      ensures a == Exists ==> i == 0 && s.l.stuck[pos] > 0 && !NoFrameLeft(s.used)
      ensures a == Exists ==> exists f: nat :: Unused(s, f) && Now() == WithLost(s, f)
      ensures i == 0 && s.l.stuck[pos] > 0 && !NoFrameLeft(s.used) ==> a == Exists
      ensures a == OutOfFrames <==> old(mmu.pmm.freeFrames) == 0
      ensures mmu.pmm.freeFrames == old(mmu.pmm.freeFrames) - if a == OutOfFrames then 0 else 1
    {
      ghost var s1 := Now();
      SlotsApart(pos, i, pos, i);
      NextPage(bm.bits, s.l, l.backing, pos, i);
      a := TryPage(SlotPage(pos, i));
      OnlyStacksTwice(s, s1, Now(), mmu.kernelPd);
    }

    /** What an allocation that ran out of frames leaves in its slot. */
    ghost method LeaveBehind(pos: nat, n: nat, s0: Side)
      requires PagesGood() && OnlyStacks(s0, Now(), mmu.kernelPd) && DepthsGood(bm.bits, s0.l) && pos < SLOTS && !bm.bits[pos]
      requires Grown(s0.l.backing, l.backing, pos, n) && l == s0.l.(backing := l.backing) && n < STACK_PAGES
      requires s0.l.stuck[pos] > 0 ==> n == 0
      modifies this`l
      ensures Valid() && OnlyStacks(s0, Now(), mmu.kernelPd) && LeftIn(s0.l, l, pos, n)
    {
      if l.stuck[pos] == 0 {
        DepthsAfterAlloc(bm.bits, s0.l, l.backing, pos, n);
        Restuck(s0, Now(), l.stuck[pos := n], mmu.kernelPd);
        l := l.(stuck := l.stuck[pos := n]);
      } else {
        GrownByNone(s0.l.backing, l.backing, pos);
      }
    }

    /** `kstack_alloc` */
    method Alloc(stack: Stack) returns (g: Grant, ghost pos: nat, ghost n: nat)
      requires Valid()
      modifies this`l, bm`bits, bm.data, mmu`mem, mmu`view, mmu`owner, mmu.pmm, mmu.pmm.bm`bits, mmu.pmm.bm.data
      ensures Valid() && OnlyStacks(old(Now()), Now(), mmu.kernelPd)
      ensures g == AlreadyGranted <==> stack.base != 0 || stack.size != 0
      ensures g == NoSlot <==> stack == Stack(0, 0) && false !in old(bm.bits)
      ensures g == AlreadyGranted || g == NoSlot ==> Now() == old(Now()) && bm.bits == old(bm.bits)
      ensures g.Granted? || g == NoFrame || g == SlotTaken ==> LowestClear(old(bm.bits), pos)
      ensures g.Granted? ==> g.stack == Stack(SlotBase(pos), STACK_PAGES * PAGE) && bm.bits == old(bm.bits)[pos := true]
      ensures g.Granted? ==> old(l).stuck[pos] == 0 && Grown(old(l).backing, l.backing, pos, STACK_PAGES) && l == old(l).(backing := l.backing)
      ensures g == NoFrame ==> bm.bits == old(bm.bits) && NoFrameLeft(mmu.pmm.bm.bits) && LeftIn(old(l), l, pos, n)
      ensures g == SlotTaken ==> old(l).stuck[pos] > 0 && bm.bits == old(bm.bits)
      ensures g == SlotTaken ==> exists f: nat :: Unused(old(Now()), f) && Now() == WithLost(old(Now()), f)
      ensures stack == Stack(0, 0) && LowestClear(old(bm.bits), pos) && old(l).stuck[pos] > 0 ==>
        g == (if NoFrameLeft(old(mmu.pmm.bm.bits)) then NoFrame else SlotTaken)
      ensures |bm.bits| == 64
      ensures g.Granted? ==> pos < 64 && g.stack == Stack(0xF000_0000 + 0x4000 * pos, 0x4000) && Backs(old(Now()), Now(), mmu.kernelPd, g.stack)
      ensures g.Granted? <==> stack == Stack(0, 0) && Grants(old(bm.bits), old(mmu.view)[mmu.kernelPd], old(mmu.pmm.freeFrames))
      ensures g == NoFrame ==> n == old(mmu.pmm.freeFrames)
      ensures ScrapsGrow(old(l), l)
      ensures SameScraps(old(l), l) <==> !(stack == Stack(0, 0) && Wastes(old(bm.bits), old(mmu.view)[mmu.kernelPd], old(mmu.pmm.freeFrames)))
    {
      pos, n := 0, 0;
      OnlyStacksNothing(Now(), mmu.kernelPd);
      if stack.base != 0 || stack.size != 0 {
        g := AlreadyGranted;
        return;
      }
      var found, slot := bm.FindZero();
      if !found {
        g := NoSlot;
        return;
      }
      pos := slot;
      ghost var s, bits := Now(), bm.bits;
      SlotDecides(s, mmu.kernelPd, bits, slot);
      CountNone(mmu.pmm.bm.bits);
      g, n := FillSlot(slot);
      if g.Granted? { NewStackBacked(s, Now(), mmu.kernelPd, bits, slot); }
    }

    /** The pages of a free slot, and then its bit. */
    method FillSlot(slot: nat) returns (g: Grant, ghost n: nat)
      requires Valid() && LowestClear(bm.bits, slot)
      modifies this`l, bm`bits, bm.data, mmu`mem, mmu`view, mmu`owner, mmu.pmm, mmu.pmm.bm`bits, mmu.pmm.bm.data
      ensures Valid() && OnlyStacks(old(Now()), Now(), mmu.kernelPd) && (g.Granted? || g == NoFrame || g == SlotTaken)
      ensures bm.bits == if g.Granted? then old(bm.bits)[slot := true] else old(bm.bits)
      ensures g.Granted? ==> g.stack == Stack(SlotBase(slot), STACK_PAGES * PAGE) && old(mmu.pmm.freeFrames) >= STACK_PAGES
      ensures g.Granted? ==> old(l).stuck[slot] == 0 && Grown(old(l).backing, l.backing, slot, STACK_PAGES) && l == old(l).(backing := l.backing)
      ensures g == NoFrame ==> NoFrameLeft(mmu.pmm.bm.bits) && LeftIn(old(l), l, slot, n) && n == old(mmu.pmm.freeFrames) < STACK_PAGES
      ensures g == SlotTaken <==> old(l).stuck[slot] > 0 && old(mmu.pmm.freeFrames) > 0
      ensures g == SlotTaken ==> exists f: nat :: Unused(old(Now()), f) && Now() == WithLost(old(Now()), f)
      ensures ScrapsGrow(old(l), l) && (SameScraps(old(l), l) <==> g.Granted? || (g == NoFrame && n == 0))
    {
      ghost var s0, bits := Now(), bm.bits;
      CountNone(s0.used);
      var a;
      a, n := TryPages(slot);
      match a {
        case Exists =>
          SameDepths(bits, s0.l, l);
          OneLost(s0, mmu.kernelPd, Now());
          g := SlotTaken;
        case OutOfFrames =>
          LeaveBehind(slot, n, s0);
          LeftScraps(s0.l, l, slot, n);
          g := NoFrame;
        case Added =>
          bm.Set(slot);
          DepthsAfterAlloc(bits, s0.l, l.backing, slot, STACK_PAGES);
          g := Granted(Stack(STACK_BASE + STACK_PAGES * slot * PAGE, STACK_PAGES * PAGE));
      }
    }

    /** The release loop over the pages from `first` on, which are those of slot `pos`. */
    method DropPages(first: nat, ghost pos: nat)
      requires Valid() && pos < SLOTS && bm.bits[pos] && first == SlotPage(pos, 0)
      modifies this`l, mmu`mem, mmu`view, mmu.pmm, mmu.pmm.bm`bits, mmu.pmm.bm.data
      ensures PagesGood() && OnlyStacks(old(Now()), Now(), mmu.kernelPd)
      ensures l == old(l).(backing := Without(old(l).backing, pos, STACK_PAGES))
    {
      ghost var s := Now();
      OnlyStacksNothing(s, mmu.kernelPd);
      assert Without(l.backing, pos, 0) == l.backing;
      for i := 0 to STACK_PAGES
        invariant PagesGood() && OnlyStacks(s, Now(), mmu.kernelPd) && l == s.l.(backing := Without(s.l.backing, pos, i))
      {
        ghost var s1 := Now();
        WithoutNext(bm.bits, s.l, pos, i);
        DropPage(first + i);
        OnlyStacksTwice(s, s1, Now(), mmu.kernelPd);
      }
    }

    /** `kstack_free` of a live stack never fails; of an empty descriptor it does nothing. */
    method Free(stack: Stack, ghost pos: nat) returns (ok: bool)
      requires Valid()
      requires stack.base == 0 || stack.size == 0 || (pos < SLOTS && bm.bits[pos] && stack.base == SlotBase(pos))
      modifies this`l, bm`bits, bm.data, mmu`mem, mmu`view, mmu.pmm, mmu.pmm.bm`bits, mmu.pmm.bm.data
      ensures Valid() && OnlyStacks(old(Now()), Now(), mmu.kernelPd)
      ensures ok <==> stack.base != 0 && stack.size != 0
      ensures !ok ==> Now() == old(Now()) && bm.bits == old(bm.bits)
      ensures ok ==> bm.bits == old(bm.bits)[pos := false]
      ensures ok ==> l == old(l).(backing := Without(old(l).backing, pos, STACK_PAGES))
      ensures ok ==> Vanishes(old(Now()), Now(), mmu.kernelPd, Stack(0xF000_0000 + 0x4000 * pos, 0x4000))
    {
      ghost var s, bits := Now(), bm.bits;
      OnlyStacksNothing(Now(), mmu.kernelPd);
      if stack.base == 0 || stack.size == 0 {
        return false;
      }
      var slot := (stack.base - STACK_BASE) / (STACK_PAGES * PAGE);
      assert slot == pos && stack.base / PAGE == SlotPage(slot, 0);
      DropPages(stack.base / PAGE, pos);
      bm.Clear(slot);
      DepthsAfterFree(old(bm.bits), old(l), slot);
      StackVanishes(s, Now(), mmu.kernelPd, bits, slot);
      ok := true;
    }

    /** A stack that is allocated and freed leaves no trace: slots, kernel pages and frames are as before. */
    method AllocThenFree() returns (g: Grant)
      requires Valid()
      modifies this`l, bm`bits, bm.data, mmu`mem, mmu`view, mmu`owner, mmu.pmm, mmu.pmm.bm`bits, mmu.pmm.bm.data
      ensures Valid()
      ensures g.Granted? ==> bm.bits == old(bm.bits) && UserSame(old(mmu.view), mmu.view) && mmu.owner == old(mmu.owner)
      ensures g.Granted? ==> mmu.view[mmu.kernelPd] == old(mmu.view)[mmu.kernelPd] && mmu.pmm.bm.bits == old(mmu.pmm.bm.bits)
      ensures g.Granted? ==> mmu.pmm.freeFrames == old(mmu.pmm.freeFrames)
    {
      ghost var pos, n, s := 0, 0, Now();
      g, pos, n := Alloc(Stack(0, 0));
      if g.Granted? {
        ghost var s1 := Now();
        var ok := Free(g.stack, pos);
        Restored(old(bm.bits), s.l, s1.l.backing, pos);
        OnlyStacksTwice(s, s1, Now(), mmu.kernelPd);
        SameLedgerSameState(s, Now(), mmu.kernelPd);
      }
    }
  }

  /** What failed allocations have left behind is the same. */
  ghost predicate SameScraps(l0: Ledger, l1: Ledger) { l1.lost == l0.lost && l1.stuck == l0.stuck }

  ghost predicate ScrapsGrow(l0: Ledger, l1: Ledger) {
    l0.lost <= l1.lost && |l1.stuck| == |l0.stuck| && forall i {:trigger l1.stuck[i]} :: 0 <= i < |l0.stuck| ==> l0.stuck[i] <= l1.stuck[i]
  }

  lemma ScrapsGrowTwice(l0: Ledger, l1: Ledger, l2: Ledger)
    requires ScrapsGrow(l0, l1) && ScrapsGrow(l1, l2)
    ensures ScrapsGrow(l0, l2) && (SameScraps(l0, l2) <==> SameScraps(l0, l1) && SameScraps(l1, l2))
  {
    forall i {:trigger l2.stuck[i]} | 0 <= i < |l0.stuck| ensures l0.stuck[i] <= l1.stuck[i] <= l2.stuck[i] {
    }
  }

  // ---- The addresses of a stack ----

  /** What the kernel's space maps the address to. */
  ghost function AddressOn(s: Side, kpd: nat, a: nat): Option<Mapping>
    requires kpd in s.view && a < 0x1_0000_0000
  {
    s.view[kpd][a / 4096]
  }

  /**
   * Every address of the stack is mapped, writable and for the kernel only, to a frame that was free in `s0` and is on no other
   * page of any slot.
   */
  ghost predicate Backs(s0: Side, s1: Side, kpd: nat, stack: Stack) {
    && kpd in s1.view && stack.base + stack.size <= 0x1_0000_0000
    && forall a: nat {:trigger AddressOn(s1, kpd, a)} :: stack.base <= a < stack.base + stack.size ==>
         AddressOn(s1, kpd, a).Some? && Fresh(s0, s1, kpd, a / 4096, AddressOn(s1, kpd, a).value)
  }

  ghost predicate Fresh(s0: Side, s1: Side, kpd: nat, page: nat, m: Mapping)
    requires kpd in s1.view
  {
    && m.writable && !m.user && m.frame < |s0.used| && !s0.used[m.frame] && m.frame < |s1.used| && s1.used[m.frame]
    && forall v: nat {:trigger s1.view[kpd][v]} :: 0xF_0000 <= v < 0xF_0100 && v != page && s1.view[kpd][v].Some? ==>
         s1.view[kpd][v].value.frame != m.frame
  }

  lemma NewStackBacked(s0: Side, s1: Side, kpd: nat, bits: seq<bool>, pos: nat)
    requires SideGood(s0, kpd) && SideGood(s1, kpd) && OnlyStacks(s0, s1, kpd) && s1.l.lost == s0.l.lost
    requires DepthsGood(bits, s0.l) && pos < SLOTS && !bits[pos] && s0.l.stuck[pos] == 0
    requires Grown(s0.l.backing, s1.l.backing, pos, STACK_PAGES)
    ensures Backs(s0, s1, kpd, Stack(0xF000_0000 + 0x4000 * pos, 0x4000))
  {
    var base := 0xF000_0000 + 0x4000 * pos;
    forall a: nat {:trigger AddressOn(s1, kpd, a)} | base <= a < base + 0x4000
      ensures AddressOn(s1, kpd, a).Some? && Fresh(s0, s1, kpd, a / 4096, AddressOn(s1, kpd, a).value)
    {
      var i := (a - base) / 4096;
      assert a / 4096 == SlotPage(pos, i);
      NewPageFresh(s0, s1, kpd, bits, pos, i);
    }
  }

  lemma NewPageFresh(s0: Side, s1: Side, kpd: nat, bits: seq<bool>, pos: nat, i: nat)
    requires SideGood(s0, kpd) && SideGood(s1, kpd) && OnlyStacks(s0, s1, kpd) && s1.l.lost == s0.l.lost
    requires DepthsGood(bits, s0.l) && pos < SLOTS && !bits[pos] && s0.l.stuck[pos] == 0 && i < STACK_PAGES
    requires Grown(s0.l.backing, s1.l.backing, pos, STACK_PAGES)
    ensures s1.view[kpd][SlotPage(pos, i)].Some? && Fresh(s0, s1, kpd, SlotPage(pos, i), s1.view[kpd][SlotPage(pos, i)].value)
  {
    var page := SlotPage(pos, i);
    assert DepthAt(bits, s0.l, pos) && page !in s0.l.backing && page in s1.l.backing;
    SlotsApart(pos, i, pos, i);
    NewFrame(s0, s1, kpd, page);
    assert Held(s1.used, s1.owner, s1.l.backing[page]);
    forall v: nat {:trigger s1.view[kpd][v]} | 0xF_0000 <= v < 0xF_0100 && v != page && s1.view[kpd][v].Some?
      ensures s1.view[kpd][v].value.frame != s1.l.backing[page]
    {
      assert IsSlotPage(v) && v in s1.l.backing;
    }
  }

  /** Every address of the stack was mapped, is not any more, and its frame is free. */
  ghost predicate Vanishes(s0: Side, s1: Side, kpd: nat, stack: Stack) {
    && kpd in s0.view && kpd in s1.view && stack.base + stack.size <= 0x1_0000_0000
    && forall a: nat {:trigger AddressOn(s1, kpd, a)} :: stack.base <= a < stack.base + stack.size ==>
         && AddressOn(s1, kpd, a) == None && AddressOn(s0, kpd, a).Some?
         && AddressOn(s0, kpd, a).value.frame < |s1.used| && !s1.used[AddressOn(s0, kpd, a).value.frame]
  }

  lemma StackVanishes(s0: Side, s1: Side, kpd: nat, bits: seq<bool>, pos: nat)
    requires SideGood(s0, kpd) && SideGood(s1, kpd) && OnlyStacks(s0, s1, kpd) && DepthsGood(bits, s0.l) && pos < SLOTS && bits[pos]
    requires s1.l == s0.l.(backing := Without(s0.l.backing, pos, STACK_PAGES))
    ensures Vanishes(s0, s1, kpd, Stack(0xF000_0000 + 0x4000 * pos, 0x4000))
  {
    var base := 0xF000_0000 + 0x4000 * pos;
    forall a: nat {:trigger AddressOn(s1, kpd, a)} | base <= a < base + 0x4000
      ensures AddressOn(s1, kpd, a) == None && AddressOn(s0, kpd, a).Some?
      ensures AddressOn(s0, kpd, a).value.frame < |s1.used| && !s1.used[AddressOn(s0, kpd, a).value.frame]
    {
      var i := (a - base) / 4096;
      assert a / 4096 == SlotPage(pos, i);
      SlotsApart(pos, i, pos, i);
      PageVanishes(s0, s1, kpd, bits, pos, i);
    }
  }

  lemma PageVanishes(s0: Side, s1: Side, kpd: nat, bits: seq<bool>, pos: nat, i: nat)
    requires SideGood(s0, kpd) && SideGood(s1, kpd) && OnlyStacks(s0, s1, kpd) && DepthsGood(bits, s0.l) && pos < SLOTS && bits[pos]
    requires s1.l == s0.l.(backing := Without(s0.l.backing, pos, STACK_PAGES)) && i < STACK_PAGES
    ensures s1.view[kpd][SlotPage(pos, i)] == None && s0.view[kpd][SlotPage(pos, i)].Some?
    ensures s0.view[kpd][SlotPage(pos, i)].value.frame < |s1.used| && !s1.used[s0.view[kpd][SlotPage(pos, i)].value.frame]
  {
    var page := SlotPage(pos, i);
    assert DepthAt(bits, s0.l, pos) && page in s0.l.backing;
    SlotsApart(pos, i, pos, i);
    var f := s0.l.backing[page];
    assert f in s0.l.backing.Values && Held(s0.used, s0.owner, f);
    assert Elsewhere(s1.used, s1.l, f) <==> Elsewhere(s0.used, s0.l, f);
    forall v | v in s1.l.backing ensures s1.l.backing[v] != f {
      assert v in s0.l.backing && s0.l.backing[v] == s1.l.backing[v] && v != page;
    }
  }

  // ---- What can be told before an allocation ----

  /** No page of the slot is mapped. */
  ghost predicate Clean(kernel: Space, pos: nat) { SlotPage(pos, 0) < PAGES && kernel[SlotPage(pos, 0)] == None }

  /** The lowest free slot has no mapped page, and there is a frame for each. */
  ghost predicate Grants(bits: seq<bool>, kernel: Space, free: nat) {
    exists pos: nat :: LowestClear(bits, pos) && Clean(kernel, pos) && free >= STACK_PAGES
  }

  /** There is a frame, but not enough of them, or the lowest free slot is not clean. */
  ghost predicate Wastes(bits: seq<bool>, kernel: Space, free: nat) {
    exists pos: nat :: LowestClear(bits, pos) && free > 0 && (free < STACK_PAGES || !Clean(kernel, pos))
  }

  lemma LowestClearOnce(bits: seq<bool>, p: nat, q: nat)
    requires LowestClear(bits, p) && LowestClear(bits, q)
    ensures p == q
  {
  }

  /** The lowest free slot decides; nothing is left in it exactly if its first page is not mapped. */
  lemma SlotDecides(s: Side, kpd: nat, bits: seq<bool>, pos: nat)
    requires SideGood(s, kpd) && DepthsGood(bits, s.l) && LowestClear(bits, pos)
    ensures s.l.stuck[pos] == 0 <==> Clean(s.view[kpd], pos)
    ensures forall free: nat :: Grants(bits, s.view[kpd], free) <==> s.l.stuck[pos] == 0 && free >= STACK_PAGES
    ensures forall free: nat :: Wastes(bits, s.view[kpd], free) <==> free > 0 && (free < STACK_PAGES || s.l.stuck[pos] > 0)
  {
    assert DepthAt(bits, s.l, pos);
    SlotsApart(pos, 0, pos, 0);
    assert SlotPage(pos, 0) in s.l.backing <==> s.l.stuck[pos] > 0;
    forall q: nat | LowestClear(bits, q) ensures q == pos {
      LowestClearOnce(bits, q, pos);
    }
  }

  lemma OneLost(s: Side, kpd: nat, s1: Side)
    requires SideGood(s, kpd) && exists f: nat :: Unused(s, f) && s1 == WithLost(s, f)
    ensures ScrapsGrow(s.l, s1.l) && !SameScraps(s.l, s1.l)
  {
    var f: nat :| Unused(s, f) && s1 == WithLost(s, f);
    UnusedNowhere(s, kpd, f);
  }

  lemma LeftScraps(l0: Ledger, l: Ledger, pos: nat, n: nat)
    requires LeftIn(l0, l, pos, n)
    ensures ScrapsGrow(l0, l) && (SameScraps(l0, l) <==> n == 0)
  {
    if n == 0 && l0.stuck[pos] == 0 { assert l0.stuck[pos := 0] == l0.stuck; }
  }

  lemma Restuck(s0: Side, s1: Side, stuck: seq<nat>, kpd: nat)
    requires SideGood(s1, kpd) && OnlyStacks(s0, s1, kpd)
    ensures var s2 := s1.(l := s1.l.(stuck := stuck)); SideGood(s2, kpd) && OnlyStacks(s0, s2, kpd)
  {
    var s2 := s1.(l := s1.l.(stuck := stuck));
    forall f: nat {:trigger Elsewhere(s2.used, s2.l, f)} ensures Elsewhere(s2.used, s2.l, f) <==> Elsewhere(s0.used, s0.l, f) {
      assert Elsewhere(s1.used, s1.l, f) <==> Elsewhere(s0.used, s0.l, f);
    }
  }

  lemma GrownByNone(b: Backing, b': Backing, pos: nat)
    requires Grown(b, b', pos, 0)
    ensures b' == b
  {
    assert b'.Keys == b.Keys;
  }

  ghost predicate LowestClear(bits: seq<bool>, pos: nat) {
    pos < |bits| && !bits[pos] && forall q :: 0 <= q < pos ==> bits[q]
  }

  /** `n` pages are left in the free slot `pos`, which had none unless nothing changed. */
  ghost predicate LeftIn(l0: Ledger, l: Ledger, pos: nat, n: nat) {
    && pos < |l0.stuck| && Grown(l0.backing, l.backing, pos, n) && l.lost == l0.lost
    && if l0.stuck[pos] > 0 then n == 0 && l.stuck == l0.stuck else n < STACK_PAGES && l.stuck == l0.stuck[pos := n]
  }

  /** `i` pages of the slot have been added since `s`. */
  ghost predicate Trying(s: Side, s1: Side, kpd: nat, pos: nat, i: nat) {
    && OnlyStacks(s, s1, kpd) && Grown(s.l.backing, s1.l.backing, pos, i) && s1.l == s.l.(backing := s1.l.backing)
    && (i == 0 ==> s1 == s) && pos < |s.l.stuck| && (i > 0 ==> s.l.stuck[pos] == 0)
  }

  /** Only the lost frames differ. */
  lemma SameDepths(bits: seq<bool>, l0: Ledger, l: Ledger)
    requires DepthsGood(bits, l0) && l.backing == l0.backing && l.stuck == l0.stuck
    ensures DepthsGood(bits, l)
  {
    forall pos: nat {:trigger DepthAt(bits, l, pos)} | pos < SLOTS ensures DepthAt(bits, l, pos) {
      assert DepthAt(bits, l0, pos);
    }
  }

  lemma NextPage(bits: seq<bool>, l: Ledger, b: Backing, pos: nat, i: nat)
    requires DepthsGood(bits, l) && Grown(l.backing, b, pos, i) && pos < SLOTS && !bits[pos] && i < STACK_PAGES
    requires i > 0 ==> l.stuck[pos] == 0
    ensures SlotPage(pos, i) in b <==> i == 0 && l.stuck[pos] > 0
  {
    assert DepthAt(bits, l, pos);
    assert SlotPage(pos, i) in l.backing <==> i < l.stuck[pos];
  }

  lemma OnePageSet(view: View, view': View, kpd: nat, page: nat, done: nat, f: nat)
    requires RangeChanged(view, view', kpd, page, done, ToFrames(f, StackFlags)) && kpd in view && page < PAGES && f < PAGES && done <= 1
    ensures done == 1 ==> PageSet(view, view', kpd, page, Some(Mapping(f, true, false)))
    ensures done == 0 ==> view' == view
  {
    if done == 0 {
      forall p | p in view ensures p in view' && view'[p] == view[p] {
        assert p in view'.Keys;
        assert forall v: nat :: v < PAGES ==> view'[p][v] == Changed(view, kpd, page, done, ToFrames(f, StackFlags), p, v);
      }
    }
  }

  lemma OnePageGone(view: View, view': View, kpd: nat, page: nat)
    requires RangeChanged(view, view', kpd, page, 1, Removed) && kpd in view && page < PAGES
    ensures PageSet(view, view', kpd, page, None)
  {
  }

  // ---- A promise that fails ----

  /** The frame of a page that has been added was free before. */
  lemma NewFrame(s0: Side, s1: Side, kpd: nat, v: nat)
    requires SideGood(s0, kpd) && SideGood(s1, kpd) && OnlyStacks(s0, s1, kpd) && s1.l.lost == s0.l.lost
    requires v in s1.l.backing && v !in s0.l.backing
    requires forall w :: w in s0.l.backing ==> w in s1.l.backing && s1.l.backing[w] == s0.l.backing[w]
    ensures s1.l.backing[v] < |s0.used| && !s0.used[s1.l.backing[v]]
  {
    var f := s1.l.backing[v];
    assert Held(s1.used, s1.owner, f) && f in s1.l.backing.Values;
    assert Elsewhere(s0.used, s0.l, f) <==> Elsewhere(s1.used, s1.l, f);
    forall w | w in s0.l.backing ensures s0.l.backing[w] != f {
      assert w != v && s1.l.backing[w] == s0.l.backing[w];
    }
  }

  ghost predicate LastFree(used: seq<bool>, f: nat) {
    f < |used| && !used[f] && forall g: nat {:trigger used[g]} :: g < |used| && g != f ==> used[g]
  }

  lemma SamePage(s0: Side, s1: Side, kpd: nat, f: nat, v: nat, w: nat)
    requires SideGood(s0, kpd) && SideGood(s1, kpd) && OnlyStacks(s0, s1, kpd) && s1.l.lost == s0.l.lost && LastFree(s0.used, f)
    requires v in s1.l.backing && v !in s0.l.backing && w in s1.l.backing && w !in s0.l.backing
    requires forall u :: u in s0.l.backing ==> u in s1.l.backing && s1.l.backing[u] == s0.l.backing[u]
    ensures v == w
  {
    NewFrame(s0, s1, kpd, v);
    NewFrame(s0, s1, kpd, w);
  }

  /** With one frame left, no more than one page can have been added. */
  lemma AtMostOne(s0: Side, s1: Side, kpd: nat, pos: nat, n: nat, f: nat)
    requires SideGood(s0, kpd) && SideGood(s1, kpd) && OnlyStacks(s0, s1, kpd) && s1.l.lost == s0.l.lost && LastFree(s0.used, f)
    requires Grown(s0.l.backing, s1.l.backing, pos, n)
    requires forall i: nat {:trigger SlotPage(pos, i)} :: i < STACK_PAGES ==> SlotPage(pos, i) !in s0.l.backing
    requires n <= STACK_PAGES
    ensures n <= 1 && (n == 0 && s1.l == s0.l.(backing := s1.l.backing) ==> s1.used == s0.used)
    ensures (n == 1 ==> SlotPage(pos, 0) in s1.l.backing && s1.l.backing[SlotPage(pos, 0)] == f)
  {
    var b := s1.l.backing;
    if n >= 1 { NewFrame(s0, s1, kpd, SlotPage(pos, 0)); }
    if n >= 2 { SamePage(s0, s1, kpd, f, SlotPage(pos, 0), SlotPage(pos, 1)); }
    if n == 0 && s1.l == s0.l.(backing := b) {
      GrownByNone(s0.l.backing, b, pos);
      SameLedgerSameState(s0, s1, kpd);
    }
  }

  /**
   * With one frame left, `kstack_alloc` fails and keeps it: the first page of a slot that counts as free is
   * mapped to the frame.  From then on `Alloc` refuses the slot, and loses one more frame whenever there is one.
   */
  method OneFrameLeft(pool: StackPool, ghost f: nat) returns (g: Grant)
    requires pool.Valid() && !pool.bm.bits[0] && pool.l.stuck[0] == 0 && LastFree(pool.mmu.pmm.bm.bits, f)
    modifies pool`l, pool.bm`bits, pool.bm.data, pool.mmu`mem, pool.mmu`view, pool.mmu`owner, pool.mmu.pmm, pool.mmu.pmm.bm`bits, pool.mmu.pmm.bm.data
    ensures pool.Valid() && g == NoFrame && pool.bm.bits == old(pool.bm.bits) && pool.l.stuck == old(pool.l).stuck[0 := 1]
    ensures pool.mmu.view[pool.mmu.kernelPd][SlotPage(0, 0)] == Some(Mapping(f, true, false)) && NoFrameLeft(pool.mmu.pmm.bm.bits)
  {
    ghost var s, kpd, pos, n := pool.Now(), pool.mmu.kernelPd, 0, 0;
    assert DepthAt(pool.bm.bits, pool.l, 0) && s.l.stuck[0 := 0] == s.l.stuck && RunFree(s.used, f, 1);
    g, pos, n := pool.Alloc(Stack(0, 0));
    ghost var added := if g.Granted? then STACK_PAGES else n;
    assert pos == 0;
    AtMostOne(s, pool.Now(), kpd, 0, added, f);
    SlotsApart(0, 0, 0, 0);
  }
}

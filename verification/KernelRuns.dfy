/**
 * Kernel stacks, process spaces, kernel mappings and program loading on one machine, in any order: the stacks
 * that were handed out are the slots in use, every frame in use has exactly one purpose, and nothing is left over.
 */
module KernelRuns {
  import opened Bitmaps
  import opened PageTables
  import opened FrameAllocator
  import opened Paging
  import opened VirtualMemory
  import opened PhysicalBytes
  import opened LoadedPrograms
  import opened ProcessLoader
  import opened KernelStacks
  import KernelVm

  // ---- What every frame in use is for ----

  /** A frame in use that is neither a table nor a stack's. */
  ghost predicate Rest(s: Side, f: nat) {
    Held(s.used, s.owner, f) && f !in s.l.backing.Values && f !in s.l.lost
  }

  /** Those frames are the ones reserved from the start and those of programs. */
  ghost predicate Accounts(s: Side, base: set<nat>, data: set<nat>) {
    base !! data && forall f: nat {:trigger Rest(s, f)} :: Rest(s, f) <==> f in base || f in data
  }

  lemma RestAfterStacks(s0: Side, s1: Side, kpd: nat, base: set<nat>, data: set<nat>)
    requires OnlyStacks(s0, s1, kpd) && Accounts(s0, base, data)
    ensures Accounts(s1, base, data)
  {
    forall f: nat {:trigger Rest(s1, f)} ensures Rest(s1, f) <==> f in base || f in data {
      assert Elsewhere(s1.used, s1.l, f) <==> Elsewhere(s0.used, s0.l, f);
      assert Rest(s0, f) <==> f in base || f in data;
    }
  }

  lemma RestAfterTables(s0: Side, s1: Side, base: set<nat>, data: set<nat>)
    requires SameHeld(s0.used, s0.owner, s1.used, s1.owner) && s1.l == s0.l && Accounts(s0, base, data)
    ensures Accounts(s1, base, data)
  {
    forall f: nat {:trigger Rest(s1, f)} ensures Rest(s1, f) <==> f in base || f in data {
      assert Held(s1.used, s1.owner, f) <==> Held(s0.used, s0.owner, f);
      assert Rest(s0, f) <==> f in base || f in data;
    }
  }

  /** The frames that loading took and keeps. */
  ghost function LoadedFrames(s0: Side, s1: Side): set<nat> {
    set f: nat | f < |s1.used| && Held(s1.used, s1.owner, f) && !Held(s0.used, s0.owner, f)
  }

  lemma RestAfterLoad(s0: Side, s1: Side, kpd: nat, base: set<nat>, data: set<nat>)
    requires HeldGrows(s0.used, s0.owner, s1.used, s1.owner) && s1.l == s0.l && SideGood(s0, kpd) && Accounts(s0, base, data)
    ensures Accounts(s1, base, data + LoadedFrames(s0, s1))
  {
    forall f: nat {:trigger Rest(s1, f)} ensures Rest(s1, f) <==> f in base || f in data + LoadedFrames(s0, s1) {
      assert Rest(s0, f) <==> f in base || f in data;
      assert Held(s0.used, s0.owner, f) ==> Held(s1.used, s1.owner, f);
      if f in s0.l.backing.Values {
        var v :| v in s0.l.backing && s0.l.backing[v] == f;
        assert Held(s0.used, s0.owner, s0.l.backing[v]);
      }
    }
    forall f: nat | f in base ensures f !in LoadedFrames(s0, s1) {
      assert Rest(s0, f);
    }
  }

  // ---- The kernel's own pages ----

  /** The kernel's pages but for stacks. */
  ghost predicate PlainIs(space: Space, plain: Space) {
    forall v: nat {:trigger plain[v]} {:trigger space[v]} :: v < PAGES ==> plain[v] == if IsSlotPage(v) then None else space[v]
  }

  ghost function Plain(space: Space): (plain: Space)
    ensures PlainIs(space, plain)
  {
    seq(PAGES, v requires 0 <= v < PAGES => if IsSlotPage(v) then None else space[v])
  }

  lemma PlainAfterStacks(s0: Side, s1: Side, kpd: nat, plain: Space)
    requires OnlyStacks(s0, s1, kpd) && PlainIs(s0.view[kpd], plain)
    ensures PlainIs(s1.view[kpd], plain)
  {
  }

  /** An operation on kernel pages outside the slots. */
  predicate OffSlots(op: KernelOp) {
    op.virt / PAGE + op.size / PAGE <= BASE_PAGE || BASE_PAGE + SLOTS * STACK_PAGES <= op.virt / PAGE
  }

  lemma StacksAside(s: Side, view: View, kpd: nat, op: KernelOp, done: nat)
    requires SideGood(s, kpd) && RangeChanged(s.view, view, kpd, op.virt / PAGE, done, ChangeOf(op)) && OffSlots(op)
    requires done <= op.size / PAGE
    ensures SideGood(s.(view := view), kpd)
  {
    assert kpd in view.Keys;
  }

  // ---- Two halves of one machine ----

  ghost predicate Both(vmm: Vmm, pool: StackPool)
    reads vmm, vmm.mmu, vmm.mmu.pmm, vmm.mmu.pmm.bm, vmm.mmu.pmm.bm.data, pool, pool.mmu, pool.mmu.pmm, pool.mmu.pmm.bm,
          pool.mmu.pmm.bm.data, pool.bm, pool.bm.data
  {
    pool.mmu == vmm.mmu && vmm.Valid() && pool.Valid()
  }

  /** Areas look at user halves only, which stacks leave alone. */
  lemma AreasKept(spaces: map<nat, seq<Vma>>, view: View, view': View, torn: set<nat>)
    requires AllGood(spaces, view, torn) && UserSame(view, view')
    ensures AllGood(spaces, view', torn)
  {
    forall p {:trigger GoodAt(spaces, view', torn, p)} | p in spaces ensures GoodAt(spaces, view', torn, p) {
      assert GoodAt(spaces, view, torn, p);
      assert p in view'.Keys;
      GoodSameUser(spaces[p], view[p], view'[p], p in torn);
    }
  }

  /** `kstack_alloc`, with process spaces around. */
  method AllocStack(vmm: Vmm, pool: StackPool) returns (g: Grant, ghost pos: nat)
    requires Both(vmm, pool)
    modifies pool`l, pool.bm`bits, pool.bm.data, vmm.mmu`mem, vmm.mmu`view, vmm.mmu`owner, vmm.mmu.pmm, vmm.mmu.pmm.bm`bits, vmm.mmu.pmm.bm.data
    ensures Both(vmm, pool) && OnlyStacks(old(pool.Now()), pool.Now(), vmm.mmu.kernelPd)
    ensures g.Granted? ==> LowestClear(old(pool.bm.bits), pos) && pool.bm.bits == old(pool.bm.bits)[pos := true]
    ensures g.Granted? ==> g.stack == Stack(SlotBase(pos), STACK_PAGES * PAGE)
    ensures !g.Granted? ==> pool.bm.bits == old(pool.bm.bits)
    ensures g != AlreadyGranted && (g == NoSlot <==> false !in old(pool.bm.bits))
    ensures g.Granted? <==> Grants(old(pool.bm.bits), old(vmm.mmu.view)[vmm.mmu.kernelPd], CountFree(old(vmm.mmu.pmm.bm.bits)))
    ensures ScrapsGrow(old(pool.l), pool.l)
    ensures SameScraps(old(pool.l), pool.l) <==>
      !Wastes(old(pool.bm.bits), old(vmm.mmu.view)[vmm.mmu.kernelPd], CountFree(old(vmm.mmu.pmm.bm.bits)))
  {
    ghost var view, n := vmm.mmu.view, 0;
    g, pos, n := pool.Alloc(Stack(0, 0));
    AreasKept(vmm.spaces, view, vmm.mmu.view, vmm.torn);
  }

  /** `kstack_free` of a live stack. */
  method FreeStack(vmm: Vmm, pool: StackPool, stack: Stack, ghost pos: nat) returns (ok: bool)
    requires Both(vmm, pool) && pos < SLOTS && pool.bm.bits[pos] && stack == Stack(SlotBase(pos), STACK_PAGES * PAGE)
    modifies pool`l, pool.bm`bits, pool.bm.data, vmm.mmu`mem, vmm.mmu`view, vmm.mmu.pmm, vmm.mmu.pmm.bm`bits, vmm.mmu.pmm.bm.data
    ensures Both(vmm, pool) && OnlyStacks(old(pool.Now()), pool.Now(), vmm.mmu.kernelPd)
    ensures ok && pool.bm.bits == old(pool.bm.bits)[pos := false] && SameScraps(old(pool.l), pool.l)
  {
    ghost var view := vmm.mmu.view;
    ok := pool.Free(stack, pos);
    AreasKept(vmm.spaces, view, vmm.mmu.view, vmm.torn);
  }

  /** Any request on process spaces, with stacks around. */
  method ServeUser(vmm: Vmm, pool: StackPool, q: Request)
    requires Both(vmm, pool) && !q.Kernel?
    modifies vmm, vmm.mmu`mem, vmm.mmu`view, vmm.mmu`owner, vmm.mmu.pmm, vmm.mmu.pmm.bm`bits, vmm.mmu.pmm.bm.data
    ensures Both(vmm, pool) && pool.l == old(pool.l) && pool.bm.bits == old(pool.bm.bits)
    ensures Served(old(vmm.Now()), vmm.Now(), vmm.mmu.kernelPd, q)
  {
    ghost var s := pool.Now();
    vmm.Serve(q);
    StacksKept(s, vmm.mmu.view, vmm.mmu.pmm.bm.bits, vmm.mmu.owner, vmm.mmu.kernelPd);
  }

  /** `vm_space_init`, with stacks around; it takes one low frame. */
  method OpenSpace(vmm: Vmm, pool: StackPool) returns (pd: Option<nat>)
    requires Both(vmm, pool)
    modifies vmm, vmm.mmu`mem, vmm.mmu`view, vmm.mmu`owner, vmm.mmu.pmm, vmm.mmu.pmm.bm`bits, vmm.mmu.pmm.bm.data
    ensures Both(vmm, pool) && pool.l == old(pool.l) && pool.bm.bits == old(pool.bm.bits)
    ensures if pd.Some? then pd.value !in old(vmm.spaces) && vmm.spaces == old(vmm.spaces)[pd.value := []] else vmm.spaces == old(vmm.spaces)
    ensures pd.Some? <==> !NoLowFrame(old(vmm.mmu.pmm.bm.bits))
    ensures pd.Some? ==> CountFree(vmm.mmu.pmm.bm.bits) == CountFree(old(vmm.mmu.pmm.bm.bits)) - 1
    ensures Served(old(vmm.Now()), vmm.Now(), vmm.mmu.kernelPd, NewSpace)
  {
    ghost var s := pool.Now();
    pd := vmm.SpaceInit();
    if pd.Some? { CountAfterSet(s.used, pd.value, true); }
    StacksKept(s, vmm.mmu.view, vmm.mmu.pmm.bm.bits, vmm.mmu.owner, vmm.mmu.kernelPd);
  }

  lemma NewAndGone(spaces: map<nat, seq<Vma>>, pd: nat)
    requires pd !in spaces
    ensures spaces[pd := []] - {pd} == spaces
  {
  }

  /** `vm_space_destroy`, with stacks around. */
  method CloseSpace(vmm: Vmm, pool: StackPool, pd: nat)
    requires Both(vmm, pool) && pd in vmm.spaces
    modifies vmm, vmm.mmu`view, vmm.mmu`owner, vmm.mmu.pmm, vmm.mmu.pmm.bm`bits, vmm.mmu.pmm.bm.data
    ensures Both(vmm, pool) && pool.l == old(pool.l) && pool.bm.bits == old(pool.bm.bits) && vmm.spaces == old(vmm.spaces) - {pd}
    ensures Served(old(vmm.Now()), vmm.Now(), vmm.mmu.kernelPd, EndSpace(pd))
  {
    ghost var s := pool.Now();
    var r := vmm.SpaceDestroy(pd);
    StacksKept(s, vmm.mmu.view, vmm.mmu.pmm.bm.bits, vmm.mmu.owner, vmm.mmu.kernelPd);
  }

  /** An operation on kernel pages outside the slots. */
  method ServeKernel(vmm: Vmm, pool: StackPool, op: KernelOp)
    requires Both(vmm, pool) && OffSlots(op) && op.virt < ADDRESSES && op.size < ADDRESSES
    modifies vmm.mmu`mem, vmm.mmu`view, vmm.mmu`owner, vmm.mmu.pmm, vmm.mmu.pmm.bm`bits, vmm.mmu.pmm.bm.data
    ensures Both(vmm, pool) && pool.l == old(pool.l) && pool.bm.bits == old(pool.bm.bits)
    ensures vmm.mmu.owner == old(vmm.mmu.owner) && vmm.mmu.pmm.bm.bits == old(vmm.mmu.pmm.bm.bits)
    ensures vmm.spaces == old(vmm.spaces) && SameUser(vmm.spaces, old(vmm.mmu.view), vmm.mmu.view)
    ensures Served(old(vmm.Now()), vmm.Now(), vmm.mmu.kernelPd, Kernel(op))
  {
    ghost var s := pool.Now();
    var r; ghost var done;
    r, done := vmm.KernelChange(op);
    assert vmm.Now() == old(vmm.Now()).(view := vmm.mmu.view);
    StacksAside(s, vmm.mmu.view, vmm.mmu.kernelPd, op, done);
  }

  lemma KernelBeside(w0: World, w1: World, pd: nat, kpd: nat)
    requires Since(w0, w1, pd, kpd) && pd != kpd && kpd in w0.view
    ensures KernelSideKept(w0.view, w1.view, kpd) && HeldGrows(w0.used, w0.owner, w1.used, w1.owner)
    ensures SameKernelTables(w0.owner, w1.owner, kpd)
  {
    assert kpd in w1.view.Keys;
  }

  /** `process_load` into a space, with stacks around. */
  method ServeLoad(vmm: Vmm, pool: StackPool, pd: nat, image: seq<Byte>, haveNode: nat -> bool) returns (r: Result, ghost stray: nat)
    requires Both(vmm, pool) && pd in vmm.spaces
    modifies vmm, vmm.mmu`mem, vmm.mmu`view, vmm.mmu`owner, vmm.mmu.pmm, vmm.mmu.pmm.bm`bits, vmm.mmu.pmm.bm.data
    ensures Both(vmm, pool) && pool.l == old(pool.l) && pool.bm.bits == old(pool.bm.bits)
    ensures Since(old(WorldOf(vmm)), WorldOf(vmm), pd, vmm.mmu.kernelPd)
    ensures r == Ok ==> WellFormed(image) && ProgramIn(old(WorldOf(vmm)), WorldOf(vmm), pd, vmm.mmu.kernelPd, image)
    ensures Isolated(old(WorldOf(vmm))) ==> (Isolated(WorldOf(vmm)) <==> stray == 0)
    ensures KernelSideKept(old(vmm.mmu.view), vmm.mmu.view, vmm.mmu.kernelPd)
  {
    ghost var s, w := pool.Now(), WorldOf(vmm);
    var start; ghost var n;
    r, start, n, stray := LoadImage(vmm, pd, image, haveNode);
    KernelBeside(w, WorldOf(vmm), pd, vmm.mmu.kernelPd);
    StacksKept(s, vmm.mmu.view, vmm.mmu.pmm.bm.bits, vmm.mmu.owner, vmm.mmu.kernelPd);
  }

  // ---- Programs keep to their own frames ----

  /** Every user page is on a frame of its own, which is a program's. */
  ghost predicate Tidy(w: World, data: set<nat>) {
    Isolated(w) && forall p: nat, v: nat {:trigger UserPage(w, p, v)} :: UserPage(w, p, v) ==> FrameAt(w, p, v) in data
  }

  /** No user page is new, and the programs' frames are still held. */
  lemma TidyKept(w0: World, w1: World, s: Side, base: set<nat>, data: set<nat>)
    requires Tidy(w0, data) && NoNewPages(w0.spaces, w0.view, w1.spaces, w1.view)
    requires Accounts(s, base, data) && s.used == w1.used && s.owner == w1.owner
    ensures Tidy(w1, data)
  {
    forall p: nat, v: nat {:trigger UserPage(w1, p, v)} | UserPage(w1, p, v)
      ensures UserPage(w0, p, v) && FrameAt(w1, p, v) == FrameAt(w0, p, v) && FrameAt(w1, p, v) in data
      ensures Held(w1.used, w1.owner, FrameAt(w1, p, v))
    {
      assert w1.view[p][v].Some? && UserPage(w0, p, v);
      assert Rest(s, FrameAt(w1, p, v));
    }
  }

  lemma UserSameNoNew(spaces: map<nat, seq<Vma>>, view: View, view': View)
    requires UserSame(view, view')
    ensures NoNewPages(spaces, view, spaces, view') && NoneHidden(spaces, view, spaces, view')
  {
    forall p: nat, v: nat {:trigger view'[p][v]} | p in spaces && p in view' && v < KERNEL_PAGES && view'[p][v].Some?
      ensures p in view && view'[p][v] == view[p][v]
    {
      assert p in view.Keys;
    }
  }

  lemma TidyAfterLoad(w0: World, w1: World, s0: Side, s1: Side, base: set<nat>, data: set<nat>)
    requires Tidy(w0, data) && Isolated(w1) && FreshPages(w0, w1)
    requires s0.used == w0.used && s0.owner == w0.owner && s1.used == w1.used && s1.owner == w1.owner
    ensures Tidy(w1, data + LoadedFrames(s0, s1))
  {
    forall p: nat, v: nat {:trigger UserPage(w1, p, v)} | UserPage(w1, p, v) ensures FrameAt(w1, p, v) in data + LoadedFrames(s0, s1) {
      assert FreshPage(w0, w1, p, v) && Held(w1.used, w1.owner, FrameAt(w1, p, v));
    }
  }

  // ---- Any run ----

  /** The slots in use are those of the stacks handed out. */
  ghost predicate LiveStacks(bits: seq<bool>, live: map<nat, Stack>) {
    && (forall pos: nat {:trigger pos in live} :: pos in live <==> pos < |bits| && bits[pos])
    && (forall pos: nat {:trigger live[pos]} :: pos in live ==> live[pos] == Stack(SlotBase(pos), STACK_PAGES * PAGE))
  }

  /** The slot that a stack is in. */
  function SlotOf(stack: Stack): int { (stack.base - STACK_BASE) / (STACK_PAGES * PAGE) }

  lemma LiveAdded(bits: seq<bool>, live: map<nat, Stack>, pos: nat, stack: Stack)
    requires LiveStacks(bits, live) && LowestClear(bits, pos) && stack == Stack(SlotBase(pos), STACK_PAGES * PAGE)
    ensures SlotOf(stack) == pos && pos !in live && LiveStacks(bits[pos := true], live[pos := stack])
  {
  }

  /** The kernel's own directory and tables. */
  ghost predicate KernelTables(owner: map<nat, Owner>, kpd: nat, tables: set<nat>) {
    forall f: nat {:trigger Owns(owner, kpd, f)} :: Owns(owner, kpd, f) <==> f in tables
  }

  // ---- What the user can use ----

  /** All tables but the kernel's were made for the user. */
  ghost predicate AllForUser(owner: map<nat, Owner>, kpd: nat) {
    forall f {:trigger owner[f]} :: f in owner && owner[f].TableIn? && owner[f].pd != kpd ==> owner[f].user
  }

  /** The own entry of every user page is for the user. */
  ghost predicate NothingHidden(w: World) {
    forall p: nat, v: nat {:trigger UserPage(w, p, v)} :: UserPage(w, p, v) ==> w.view[p][v].value.user
  }

  lemma StillForUser(owner: map<nat, Owner>, owner': map<nat, Owner>, kpd: nat)
    requires AllForUser(owner, kpd) && MoreForUser(owner, owner')
    ensures AllForUser(owner', kpd)
  {
  }

  lemma StillOpen(w0: World, w1: World)
    requires NothingHidden(w0) && NoneHidden(w0.spaces, w0.view, w1.spaces, w1.view)
    ensures NothingHidden(w1)
  {
    forall p: nat, v: nat {:trigger UserPage(w1, p, v)} | UserPage(w1, p, v) ensures w1.view[p][v].value.user {
      assert !w1.view[p][v].value.user ==> UserPage(w0, p, v);
    }
  }

  lemma OpenAfterLoad(w0: World, w1: World)
    requires NothingHidden(w0) && FreshPages(w0, w1)
    ensures NothingHidden(w1)
  {
    forall p: nat, v: nat {:trigger UserPage(w1, p, v)} | UserPage(w1, p, v) ensures w1.view[p][v].value.user {
      assert FreshPage(w0, w1, p, v);
    }
  }

  /** The processor grants on every user page of every space what its own entry says. */
  ghost predicate AsMapped(w: World) {
    forall p: nat, v: nat {:trigger UserPage(w, p, v)} :: UserPage(w, p, v) ==> p in w.mem && Effective(w.mem, p, v) == w.view[p][v]
  }

  /** The user can get at every user page of every space. */
  ghost predicate AllAccessible(w: World) {
    forall p: nat, v: nat {:trigger UserPage(w, p, v)} :: UserPage(w, p, v) ==>
      p in w.mem && Effective(w.mem, p, v).Some? && Effective(w.mem, p, v).value.user
  }

  lemma GrantedAsMapped(w: World, kpd: nat)
    requires Sound(w.mem, w.used, kpd, w.view.Keys, w.owner, ENTRIES) && Refines(w.mem, w.view) && kpd !in w.spaces && AllForUser(w.owner, kpd)
    ensures AsMapped(w) && (NothingHidden(w) ==> AllAccessible(w))
  {
    forall p: nat, v: nat {:trigger UserPage(w, p, v)} | UserPage(w, p, v) ensures p in w.mem && Effective(w.mem, p, v) == w.view[p][v] {
      EffectiveExact(w.mem, w.used, kpd, w.owner, ENTRIES, w.view, p, v);
      assert Lookup(w.mem, p, v) == w.view[p][v];
      TableIsNoDirectory(w.mem, w.used, kpd, w.view.Keys, w.owner, ENTRIES, p, v / ENTRIES);
    }
  }

  // ---- The books ----

  /**
   * Frames in use from the start that hold no table; the kernel's tables; frames of programs; the kernel's pages
   * but for stacks; whether all user pages come from loading, with none of them stray; whether all tables of
   * processes were made for the user; and whether all user pages are for the user.
   */
  datatype Books = Books(base: set<nat>, tables: set<nat>, data: set<nat>, plain: Space, clean: bool, forUser: bool, open: bool)

  ghost predicate Balanced(s: Side, w: World, kpd: nat, b: Books) {
    && w.view == s.view && w.used == s.used && w.owner == s.owner && kpd in s.view
    && Accounts(s, b.base, b.data) && KernelTables(s.owner, kpd, b.tables) && PlainIs(s.view[kpd], b.plain)
    && (b.clean ==> Tidy(w, b.data) && b.forUser) && (b.forUser ==> AllForUser(s.owner, kpd)) && (b.open ==> NothingHidden(w))
  }

  lemma StacksBalanced(s0: Side, s1: Side, w0: World, w1: World, kpd: nat, b: Books)
    requires Balanced(s0, w0, kpd, b) && OnlyStacks(s0, s1, kpd)
    requires w1.spaces == w0.spaces && w1.view == s1.view && w1.used == s1.used && w1.owner == s1.owner
    ensures Balanced(s1, w1, kpd, b)
  {
    RestAfterStacks(s0, s1, kpd, b.base, b.data);
    PlainAfterStacks(s0, s1, kpd, b.plain);
    UserSameNoNew(w0.spaces, w0.view, w1.view);
    if b.clean { TidyKept(w0, w1, s1, b.base, b.data); }
    if b.open { StillOpen(w0, w1); }
  }

  ghost function SceneOf(w: World): Scene { Scene(w.view, w.used, w.owner, w.spaces) }

  /** A mapping without `VM_USER`, or a page taken from the user. */
  predicate Hides(q: Request) { (q.MapUser? || q.ProtectUser?) && !q.flags.user }

  /** The books after a request on pages. */
  ghost function AfterPages(b: Books, q: Request, plain: Space): Books {
    b.(plain := plain, clean := b.clean && !q.MapUser?, forUser := b.forUser && !(q.MapUser? && Hides(q)), open := b.open && !Hides(q))
  }

  lemma KernelTablesKept(owner: map<nat, Owner>, owner': map<nat, Owner>, kpd: nat, tables: set<nat>)
    requires KernelTables(owner, kpd, tables) && SameKernelTables(owner, owner', kpd)
    ensures KernelTables(owner', kpd, tables)
  {
    forall f: nat {:trigger Owns(owner', kpd, f)} ensures Owns(owner', kpd, f) <==> f in tables {
      assert Owns(owner, kpd, f) <==> f in tables;
    }
  }

  lemma PagesBalanced(s0: Side, s1: Side, w0: World, w1: World, kpd: nat, b: Books, q: Request, plain: Space)
    requires Balanced(s0, w0, kpd, b) && s1.l == s0.l && w1.view == s1.view && w1.used == s1.used && w1.owner == s1.owner && kpd in s1.view
    requires Served(SceneOf(w0), SceneOf(w1), kpd, q) && PlainIs(s1.view[kpd], plain)
    ensures Balanced(s1, w1, kpd, AfterPages(b, q, plain))
  {
    var b' := AfterPages(b, q, plain);
    RestAfterTables(s0, s1, b.base, b.data);
    KernelTablesKept(s0.owner, s1.owner, kpd, b.tables);
    if b'.clean { TidyKept(w0, w1, s1, b.base, b.data); }
    if b'.forUser { StillForUser(s0.owner, s1.owner, kpd); }
    if b'.open { StillOpen(w0, w1); }
  }

  /** The books after a load. */
  ghost function WithLoad(b: Books, s0: Side, s1: Side, stray: nat): Books {
    b.(data := b.data + LoadedFrames(s0, s1), clean := b.clean && stray == 0)
  }

  lemma LoadBalanced(s0: Side, s1: Side, w0: World, w1: World, kpd: nat, b: Books, pd: nat, stray: nat)
    requires Balanced(s0, w0, kpd, b) && s1.l == s0.l && w1.view == s1.view && w1.used == s1.used && w1.owner == s1.owner
    requires SideGood(s0, kpd) && Since(w0, w1, pd, kpd) && KernelSideKept(s0.view, s1.view, kpd)
    requires Isolated(w0) ==> (Isolated(w1) <==> stray == 0)
    ensures Balanced(s1, w1, kpd, WithLoad(b, s0, s1, stray))
  {
    RestAfterLoad(s0, s1, kpd, b.base, b.data);
    KernelTablesKept(s0.owner, s1.owner, kpd, b.tables);
    if b.clean && stray == 0 { TidyAfterLoad(w0, w1, s0, s1, b.base, b.data); }
    if b.forUser { StillForUser(s0.owner, s1.owner, kpd); }
    if b.open { OpenAfterLoad(w0, w1); }
  }

  // ---- What the books say ----

  /** No failed allocation has left anything behind. */
  ghost predicate NoScraps(l: Ledger) {
    l.lost == {} && forall pos: nat {:trigger l.stuck[pos]} :: pos < |l.stuck| ==> l.stuck[pos] == 0
  }

  /** And no stack is handed out. */
  ghost predicate Quiet(l: Ledger, live: map<nat, Stack>) { live == map[] && NoScraps(l) }

  lemma StillNoScraps(l0: Ledger, l1: Ledger)
    requires NoScraps(l0) && |l1.stuck| == |l0.stuck|
    ensures NoScraps(l1) <==> SameScraps(l0, l1)
  {
    if NoScraps(l1) { assert l1.stuck == l0.stuck; }
  }

  /** The four frames of every live stack belong to it alone: no other stack, table, program or user page is on them. */
  ghost predicate OwnFrames(s: Side, w: World, kpd: nat, b: Books, live: map<nat, Stack>)
    requires kpd in s.view
  {
    forall p: nat, i: nat, f: nat {:trigger OnFrame(s, kpd, p, i, f)} :: p in live && i < STACK_PAGES && OnFrame(s, kpd, p, i, f) ==>
      && Held(s.used, s.owner, f) && f !in b.base && f !in b.data
      && (forall q: nat, j: nat {:trigger OnFrame(s, kpd, q, j, f)} :: q in live && j < STACK_PAGES && OnFrame(s, kpd, q, j, f) ==> q == p && j == i)
      && (b.clean ==> forall q: nat, v: nat {:trigger UserPage(w, q, v)} :: UserPage(w, q, v) ==> FrameAt(w, q, v) != f)
  }

  /** The page of the slot is mapped to the frame. */
  ghost predicate OnFrame(s: Side, kpd: nat, pos: nat, i: nat, f: nat)
    requires kpd in s.view
  {
    SlotPage(pos, i) < PAGES && s.view[kpd][SlotPage(pos, i)] == Some(Mapping(f, true, false))
  }

  ghost predicate Backed(s: Side, kpd: nat, pos: nat, i: nat)
    requires kpd in s.view
  {
    exists f: nat :: OnFrame(s, kpd, pos, i, f)
  }

  /** Every page of every live stack is mapped. */
  ghost predicate AllBacked(s: Side, kpd: nat, live: map<nat, Stack>)
    requires kpd in s.view
  {
    forall p: nat, i: nat {:trigger Backed(s, kpd, p, i)} :: p in live && i < STACK_PAGES ==> Backed(s, kpd, p, i)
  }

  /** The address is one of the stack's. */
  ghost predicate InStack(live: map<nat, Stack>, p: nat, a: nat) {
    p in live && live[p].base <= a < live[p].base + live[p].size
  }

  /** The same by addresses: every address of every stack handed out is mapped, and to a frame of this page of this stack alone. */
  ghost predicate OwnAddresses(s: Side, w: World, kpd: nat, b: Books, live: map<nat, Stack>)
    requires kpd in s.view
  {
    forall p: nat, a: nat {:trigger InStack(live, p, a)} :: InStack(live, p, a) ==>
      && a < 0x1_0000_0000 && AddressOn(s, kpd, a).Some? && Alone(s, w, kpd, b, live, p, a, AddressOn(s, kpd, a).value)
  }

  ghost predicate Alone(s: Side, w: World, kpd: nat, b: Books, live: map<nat, Stack>, p: nat, a: nat, m: Mapping)
    requires kpd in s.view
  {
    && m.writable && !m.user && Held(s.used, s.owner, m.frame) && m.frame !in b.base && m.frame !in b.data
    && (forall q: nat, c: nat {:trigger InStack(live, q, c)} ::
          InStack(live, q, c) && c < 0x1_0000_0000 && AddressOn(s, kpd, c).Some? && AddressOn(s, kpd, c).value.frame == m.frame ==>
          q == p && c / 4096 == a / 4096)
    && (b.clean ==> forall q: nat, v: nat {:trigger UserPage(w, q, v)} :: UserPage(w, q, v) ==> FrameAt(w, q, v) != m.frame)
  }

  lemma AddressPage(bits: seq<bool>, live: map<nat, Stack>, p: nat, a: nat) returns (i: nat)
    requires LiveStacks(bits, live) && |bits| == SLOTS && InStack(live, p, a)
    ensures i < STACK_PAGES && a / 4096 == SlotPage(p, i) && a < 0x1_0000_0000
  {
    assert live[p] == Stack(SlotBase(p), STACK_PAGES * PAGE);
    i := (a - SlotBase(p)) / 4096;
  }

  lemma LiveAddresses(s: Side, w: World, kpd: nat, bits: seq<bool>, live: map<nat, Stack>, b: Books)
    requires SideGood(s, kpd) && DepthsGood(bits, s.l) && LiveStacks(bits, live) && Balanced(s, w, kpd, b)
    ensures OwnAddresses(s, w, kpd, b, live)
  {
    LiveBacked(s, kpd, bits, live);
    LiveOwn(s, w, kpd, bits, live, b);
    forall p: nat, a: nat {:trigger InStack(live, p, a)} | InStack(live, p, a)
      ensures a < 0x1_0000_0000 && AddressOn(s, kpd, a).Some? && Alone(s, w, kpd, b, live, p, a, AddressOn(s, kpd, a).value)
    {
      var i := AddressPage(bits, live, p, a);
      assert Backed(s, kpd, p, i);
      var f: nat :| OnFrame(s, kpd, p, i, f);
      assert AddressOn(s, kpd, a) == Some(Mapping(f, true, false));
      forall q: nat, c: nat {:trigger InStack(live, q, c)}
        | InStack(live, q, c) && c < 0x1_0000_0000 && AddressOn(s, kpd, c).Some? && AddressOn(s, kpd, c).value.frame == f
        ensures q == p && c / 4096 == a / 4096
      {
        var j := AddressPage(bits, live, q, c);
        assert Backed(s, kpd, q, j);
        var g: nat :| OnFrame(s, kpd, q, j, g);
        assert OnFrame(s, kpd, q, j, f);
      }
    }
  }

  /** Slot `pos` of 64 is the 16 KiB from 0xF0000000 + 0x4000 * pos on. */
  ghost predicate Descriptors(bits: seq<bool>, live: map<nat, Stack>) {
    |bits| == 64 && forall pos: nat {:trigger pos in live} ::
      (pos in live <==> pos < 64 && bits[pos]) && (pos in live ==> live[pos] == Stack(0xF000_0000 + 0x4000 * pos, 0x4000))
  }

  lemma LiveBacked(s: Side, kpd: nat, bits: seq<bool>, live: map<nat, Stack>)
    requires SideGood(s, kpd) && DepthsGood(bits, s.l) && LiveStacks(bits, live)
    ensures AllBacked(s, kpd, live)
  {
    forall p: nat, i: nat {:trigger Backed(s, kpd, p, i)} | p in live && i < STACK_PAGES ensures Backed(s, kpd, p, i) {
      SlotsApart(p, i, p, i);
      assert DepthAt(bits, s.l, p);
      assert OnFrame(s, kpd, p, i, s.l.backing[SlotPage(p, i)]);
    }
  }

  lemma LiveOwn(s: Side, w: World, kpd: nat, bits: seq<bool>, live: map<nat, Stack>, b: Books)
    requires SideGood(s, kpd) && DepthsGood(bits, s.l) && LiveStacks(bits, live) && Balanced(s, w, kpd, b)
    ensures OwnFrames(s, w, kpd, b, live)
  {
    forall p: nat, i: nat, f: nat {:trigger OnFrame(s, kpd, p, i, f)} | p in live && i < STACK_PAGES && OnFrame(s, kpd, p, i, f)
      ensures Held(s.used, s.owner, f) && f !in b.base && f !in b.data && f in s.l.backing.Values
      ensures SlotPage(p, i) in s.l.backing && s.l.backing[SlotPage(p, i)] == f
    {
      SlotsApart(p, i, p, i);
      assert s.l.backing[SlotPage(p, i)] == f;
      assert !Rest(s, f);
    }
    forall p: nat, i: nat, q: nat, j: nat, f: nat {:trigger OnFrame(s, kpd, p, i, f), OnFrame(s, kpd, q, j, f)}
      | p in live && i < STACK_PAGES && OnFrame(s, kpd, p, i, f) && q in live && j < STACK_PAGES && OnFrame(s, kpd, q, j, f)
      ensures q == p && j == i
    {
      SlotsApart(p, i, q, j);
      assert s.l.backing[SlotPage(p, i)] == s.l.backing[SlotPage(q, j)];
    }
  }

  /** With no stack handed out, the frames in use are the first ones, the programs' and tables exactly if nothing was left behind. */
  lemma QuietFrames(s: Side, w: World, kpd: nat, bits: seq<bool>, live: map<nat, Stack>, b: Books)
    requires SideGood(s, kpd) && DepthsGood(bits, s.l) && LiveStacks(bits, live) && live == map[] && Balanced(s, w, kpd, b)
    ensures Quiet(s.l, live) <==> forall f: nat {:trigger Held(s.used, s.owner, f)} :: Held(s.used, s.owner, f) <==> f in b.base || f in b.data
    ensures Quiet(s.l, live) ==> s.view[kpd] == b.plain
  {
    if Quiet(s.l, live) {
      QuietPages(s, kpd, bits, live, b.plain);
      forall f: nat {:trigger Held(s.used, s.owner, f)} ensures Held(s.used, s.owner, f) <==> f in b.base || f in b.data {
        assert Rest(s, f) <==> f in b.base || f in b.data;
      }
    } else if f :| f in s.l.lost {
      assert Held(s.used, s.owner, f) && !Rest(s, f);
    } else {
      var pos: nat :| pos < |s.l.stuck| && s.l.stuck[pos] != 0;
      assert DepthAt(bits, s.l, pos) && SlotPage(pos, 0) in s.l.backing;
      var f := s.l.backing[SlotPage(pos, 0)];
      assert Held(s.used, s.owner, f) && !Rest(s, f);
    }
  }

  lemma QuietPages(s: Side, kpd: nat, bits: seq<bool>, live: map<nat, Stack>, plain: Space)
    requires SideGood(s, kpd) && DepthsGood(bits, s.l) && LiveStacks(bits, live) && live == map[] && Quiet(s.l, live) && PlainIs(s.view[kpd], plain)
    ensures s.l.backing == map[] && s.view[kpd] == plain
  {
    forall pos: nat {:trigger bits[pos]} | pos < SLOTS ensures !bits[pos] && s.l.stuck[pos] == 0 {
      assert pos !in live;
    }
    NoneBacked(s, kpd, bits);
    forall v: nat | v < PAGES ensures s.view[kpd][v] == plain[v] {
    }
  }

  // ---- The whole machine at one moment ----

  datatype Machine = Machine(s: Side, w: World, bits: seq<bool>, live: map<nat, Stack>, b: Books)

  ghost predicate Ordered(m: Machine, kpd: nat) {
    && SideGood(m.s, kpd) && DepthsGood(m.bits, m.s.l) && LiveStacks(m.bits, m.live) && Balanced(m.s, m.w, kpd, m.b)
    && Sound(m.w.mem, m.w.used, kpd, m.w.view.Keys, m.w.owner, ENTRIES) && Refines(m.w.mem, m.w.view)
    && m.w.spaces.Keys == m.w.view.Keys - {kpd}
  }

  /** No stack, nothing left behind by one, and no process space. */
  ghost predicate NothingOpen(m: Machine) { Quiet(m.s.l, m.live) && m.w.spaces == map[] }

  lemma Summary(m: Machine, kpd: nat)
    requires Ordered(m, kpd)
    ensures AllBacked(m.s, kpd, m.live) && OwnFrames(m.s, m.w, kpd, m.b, m.live) && (m.b.clean ==> Isolated(m.w))
    ensures m.live == map[] ==> (Quiet(m.s.l, m.live) <==> OnlyThese(m.s, m.b.base + m.b.data))
    ensures Quiet(m.s.l, m.live) ==> m.w.view[kpd] == m.b.plain
    ensures (m.b.forUser ==> AsMapped(m.w)) && (m.b.forUser && m.b.open ==> AllAccessible(m.w))
    ensures Descriptors(m.bits, m.live) && OwnAddresses(m.s, m.w, kpd, m.b, m.live)
  {
    LiveAddresses(m.s, m.w, kpd, m.bits, m.live, m.b);
    assert kpd !in m.w.spaces.Keys;
    if m.b.forUser { GrantedAsMapped(m.w, kpd); }
    LiveBacked(m.s, kpd, m.bits, m.live);
    LiveOwn(m.s, m.w, kpd, m.bits, m.live, m.b);
    if m.live == map[] { QuietFrames(m.s, m.w, kpd, m.bits, m.live, m.b); }
  }

  /** Whenever nothing is open and the programs' frames are the same, the same slots and frames are in use. */
  lemma BackAgain(m0: Machine, m1: Machine, kpd: nat)
    requires Ordered(m0, kpd) && Ordered(m1, kpd) && m1.b.base == m0.b.base && m1.b.tables == m0.b.tables && |m0.w.used| == |m1.w.used|
    ensures NothingOpen(m0) && NothingOpen(m1) && m1.b.data == m0.b.data ==> m1.w.used == m0.w.used && m1.bits == m0.bits
    ensures NothingOpen(m0) && NothingOpen(m1) && m1.b.plain == m0.b.plain ==> m1.w.view == m0.w.view
  {
    if NothingOpen(m0) && NothingOpen(m1) {
      QuietFrames(m0.s, m0.w, kpd, m0.bits, m0.live, m0.b);
      QuietFrames(m1.s, m1.w, kpd, m1.bits, m1.live, m1.b);
      OnlyKernel(m0, kpd);
      OnlyKernel(m1, kpd);
      if m1.b.data == m0.b.data { SameInUse(m0, m1, kpd); }
    }
  }

  lemma OnlyKernel(m: Machine, kpd: nat)
    requires Ordered(m, kpd) && m.w.spaces == map[]
    ensures m.w.view.Keys == {kpd} && KernelAlone(m.w, kpd)
  {
    assert forall p :: p in m.w.view.Keys && p != kpd ==> p in m.w.spaces.Keys;
  }

  lemma SameInUse(m0: Machine, m1: Machine, kpd: nat)
    requires Ordered(m0, kpd) && Ordered(m1, kpd) && m1.b.base == m0.b.base && m1.b.tables == m0.b.tables && |m0.w.used| == |m1.w.used|
    requires NothingOpen(m0) && NothingOpen(m1) && m1.b.data == m0.b.data && KernelAlone(m0.w, kpd) && KernelAlone(m1.w, kpd)
    ensures m1.w.used == m0.w.used && m1.bits == m0.bits
  {
    var s0, s1, b := m0.s, m1.s, m0.b;
    QuietFrames(s0, m0.w, kpd, m0.bits, m0.live, b);
    QuietFrames(s1, m1.w, kpd, m1.bits, m1.live, m1.b);
    forall f: nat | f < |s0.used| ensures s1.used[f] == s0.used[f] {
      assert Held(s0.used, s0.owner, f) <==> f in b.base || f in b.data;
      assert Held(s1.used, s1.owner, f) <==> f in b.base || f in b.data;
      AloneOwns(m0.w, kpd, f);
      AloneOwns(m1.w, kpd, f);
    }
    forall pos: nat | pos < SLOTS ensures m0.bits[pos] == m1.bits[pos] {
      assert pos !in m0.live && pos !in m1.live;
    }
  }

  /** No process space. */
  ghost predicate KernelAlone(w: World, kpd: nat) {
    Sound(w.mem, w.used, kpd, {kpd}, w.owner, ENTRIES)
  }

  lemma AloneOwns(w: World, kpd: nat, f: nat)
    requires KernelAlone(w, kpd)
    ensures f in w.owner <==> Owns(w.owner, kpd, f)
    ensures f in w.owner ==> f < |w.used| && w.used[f]
  {
    if f in w.owner {
      assert OwnerOk(w.mem, kpd, {kpd}, w.owner, f) && Allocated(w.used, f);
    }
  }

  datatype SystemRequest =
    | NewStack
    | EndStack(pos: nat)
    | NewProcess
    | Pages(q: Request)
    | LoadProgram(pd: nat, image: seq<Byte>, haveNode: nat -> bool)

  /** One more stack is handed out, in the lowest free slot. */
  ghost predicate OneMore(live: map<nat, Stack>, live': map<nat, Stack>, bits: seq<bool>) {
    exists pos: nat :: LowestClear(bits, pos) && live' == live[pos := Stack(SlotBase(pos), STACK_PAGES * PAGE)]
  }

  /** One frame less. */
  function Less(free: nat): nat { if free == 0 then 0 else free - 1 }

  /**
   * Whether the request gets its stack, and whether it leaves scraps, told from slots, kernel pages and free frames before
   * it is served.  A process takes a low frame for its space first.
   */
  ghost predicate Succeeds(m: Machine, kpd: nat, q: SystemRequest) {
    && kpd in m.s.view
    && (|| (q.NewStack? && Grants(m.bits, m.s.view[kpd], CountFree(m.s.used)))
        || (q.NewProcess? && !NoLowFrame(m.s.used) && Grants(m.bits, m.s.view[kpd], Less(CountFree(m.s.used)))))
  }

  ghost predicate Scraps(m: Machine, kpd: nat, q: SystemRequest) {
    && kpd in m.s.view
    && (|| (q.NewStack? && Wastes(m.bits, m.s.view[kpd], CountFree(m.s.used)))
        || (q.NewProcess? && !NoLowFrame(m.s.used) && Wastes(m.bits, m.s.view[kpd], Less(CountFree(m.s.used)))))
  }

  /** What a request does to the stacks handed out. */
  ghost predicate Handed(m: Machine, m': Machine, kpd: nat, q: SystemRequest) {
    if Succeeds(m, kpd, q) then OneMore(m.live, m'.live, m.bits)
    else if q.EndStack? then m'.live == m.live - {q.pos}
    else m'.live == m.live
  }

  /** One request: what it hands out or takes back, and exactly when it leaves scraps. */
  ghost predicate Step(m: Machine, m': Machine, kpd: nat, q: SystemRequest) {
    Handed(m, m', kpd, q) && ScrapsGrow(m.s.l, m'.s.l) && (SameScraps(m.s.l, m'.s.l) <==> !Scraps(m, kpd, q))
  }

  lemma OtherStep(m: Machine, m': Machine, kpd: nat, q: SystemRequest)
    requires !q.NewStack? && !q.NewProcess? && SameScraps(m.s.l, m'.s.l) && m'.live == if q.EndStack? then m.live - {q.pos} else m.live
    ensures Step(m, m', kpd, q)
  {
  }

  /** The machine before each request, and at the end. */
  ghost predicate Traced(trace: seq<Machine>, requests: seq<SystemRequest>, kpd: nat) {
    && |trace| == |requests| + 1
    && forall i: nat {:trigger StepAt(trace, requests, kpd, i)} :: i < |requests| ==> StepAt(trace, requests, kpd, i)
  }

  ghost predicate StepAt(trace: seq<Machine>, requests: seq<SystemRequest>, kpd: nat, i: nat) {
    i < |requests| && i + 1 < |trace| && Step(trace[i], trace[i + 1], kpd, requests[i])
  }

  ghost predicate ScrapsAt(trace: seq<Machine>, requests: seq<SystemRequest>, kpd: nat, i: nat) {
    i < |requests| && i < |trace| && Scraps(trace[i], kpd, requests[i])
  }

  /** No request came when it would leave scraps. */
  ghost predicate NoneWasted(trace: seq<Machine>, requests: seq<SystemRequest>, kpd: nat) {
    forall i: nat {:trigger ScrapsAt(trace, requests, kpd, i)} :: !ScrapsAt(trace, requests, kpd, i)
  }

  /** A run from `m` to `m'`, which leaves scraps exactly if one of its requests did. */
  ghost predicate Ran(m: Machine, m': Machine, trace: seq<Machine>, requests: seq<SystemRequest>, kpd: nat) {
    && Traced(trace, requests, kpd) && trace[0] == m && trace[|requests|] == m'
    && ScrapsGrow(m.s.l, m'.s.l) && (SameScraps(m.s.l, m'.s.l) <==> NoneWasted(trace, requests, kpd))
  }

  lemma RanNothing(m: Machine, kpd: nat)
    ensures Ran(m, m, [m], [], kpd)
  {
  }

  lemma RanMore(m0: Machine, m1: Machine, m2: Machine, trace: seq<Machine>, requests: seq<SystemRequest>, q: SystemRequest, kpd: nat)
    requires Ran(m0, m1, trace, requests, kpd) && Step(m1, m2, kpd, q)
    ensures Ran(m0, m2, trace + [m2], requests + [q], kpd)
  {
    var t, rs, n := trace + [m2], requests + [q], |requests|;
    ScrapsGrowTwice(m0.s.l, m1.s.l, m2.s.l);
    forall i: nat {:trigger StepAt(t, rs, kpd, i)} | i < |rs| ensures StepAt(t, rs, kpd, i) {
      assert i < n ==> StepAt(trace, requests, kpd, i);
    }
    WastedMore(trace, requests, m2, q, kpd);
  }

  lemma WastedMore(trace: seq<Machine>, requests: seq<SystemRequest>, m: Machine, q: SystemRequest, kpd: nat)
    requires |trace| == |requests| + 1
    ensures NoneWasted(trace + [m], requests + [q], kpd) <==> NoneWasted(trace, requests, kpd) && !Scraps(trace[|requests|], kpd, q)
  {
    var t, rs, n := trace + [m], requests + [q], |requests|;
    forall i: nat {:trigger ScrapsAt(t, rs, kpd, i)} {:trigger ScrapsAt(trace, requests, kpd, i)}
      ensures ScrapsAt(t, rs, kpd, i) <==> ScrapsAt(trace, requests, kpd, i) || (i == n && Scraps(trace[n], kpd, q))
    {
    }
    assert ScrapsAt(t, rs, kpd, n) <==> Scraps(trace[n], kpd, q);
  }

  /** What a request may do to the books. */
  ghost predicate Follows(b: Books, b': Books, q: SystemRequest, stray: nat) {
    && b'.base == b.base && b'.tables == b.tables && (!q.LoadProgram? ==> b'.data == b.data)
    && (!(q.Pages? && q.q.Kernel?) ==> b'.plain == b.plain) && (b.clean && stray == 0 && !(q.Pages? && q.q.MapUser?) ==> b'.clean)
    && (b.forUser && !(q.Pages? && q.q.MapUser? && Hides(q.q)) ==> b'.forUser) && (b.open && !(q.Pages? && Hides(q.q)) ==> b'.open)
  }

  /** Without loads the programs' frames are the same, without kernel requests the kernel's pages, and so on. */
  ghost predicate FollowsAll(b: Books, b': Books, requests: seq<SystemRequest>, stray: nat) {
    && b'.base == b.base && b'.tables == b.tables
    && ((forall q :: q in requests ==> !q.LoadProgram?) ==> b'.data == b.data)
    && ((forall q :: q in requests ==> !(q.Pages? && q.q.Kernel?)) ==> b'.plain == b.plain)
    && (b.clean && stray == 0 && (forall q :: q in requests ==> !(q.Pages? && q.q.MapUser?)) ==> b'.clean)
    && (b.forUser && (forall q :: q in requests ==> !(q.Pages? && q.q.MapUser? && Hides(q.q))) ==> b'.forUser)
    && (b.open && (forall q :: q in requests ==> !(q.Pages? && Hides(q.q))) ==> b'.open)
  }

  /** The first `i` requests have been served. */
  ghost predicate Running(m0: Machine, m: Machine, trace: seq<Machine>, requests: seq<SystemRequest>, i: nat, stray: nat, kpd: nat) {
    i <= |requests| && FollowsAll(m0.b, m.b, requests[..i], stray) && Ran(m0, m, trace, requests[..i], kpd)
  }

  lemma RunningStarts(m: Machine, requests: seq<SystemRequest>, kpd: nat)
    ensures Running(m, m, [m], requests, 0, 0, kpd)
  {
    RanNothing(m, kpd);
    assert requests[..0] == [];
  }

  lemma RunningMore(m0: Machine, m1: Machine, m2: Machine, trace: seq<Machine>, requests: seq<SystemRequest>, i: nat, n: nat, m: nat, kpd: nat)
    requires i < |requests| && Running(m0, m1, trace, requests, i, n, kpd) && Follows(m1.b, m2.b, requests[i], m) && Step(m1, m2, kpd, requests[i])
    ensures Running(m0, m2, trace + [m2], requests, i + 1, n + m, kpd)
  {
    assert requests[..i + 1] == requests[..i] + [requests[i]];
    RanMore(m0, m1, m2, trace, requests[..i], requests[i], kpd);
    FollowsNext(m0.b, m1.b, m2.b, requests[..i], requests[i], n, m);
  }

  lemma FollowsNext(b0: Books, b1: Books, b2: Books, requests: seq<SystemRequest>, q: SystemRequest, n: nat, m: nat)
    requires FollowsAll(b0, b1, requests, n) && Follows(b1, b2, q, m)
    ensures FollowsAll(b0, b2, requests + [q], n + m)
  {
    assert q in requests + [q] && forall r :: r in requests ==> r in requests + [q];
  }

  /** The frames in use that hold no table. */
  ghost predicate OnlyThese(s: Side, frames: set<nat>) {
    forall f: nat {:trigger Held(s.used, s.owner, f)} :: Held(s.used, s.owner, f) <==> f in frames
  }

  /** 32-bit arguments, and no page of a stack slot. */
  predicate InDomain(op: KernelOp) { op.virt < ADDRESSES && op.size < ADDRESSES && OffSlots(op) }

  class System {
    const vmm: Vmm
    const pool: StackPool
    /** The descriptors handed out, by slot. */
    var live: map<nat, Stack>
    ghost var b: Books

    ghost predicate Valid()
      reads this, vmm, vmm.mmu, vmm.mmu.pmm, vmm.mmu.pmm.bm, vmm.mmu.pmm.bm.data, pool, pool.mmu, pool.mmu.pmm, pool.mmu.pmm.bm,
            pool.mmu.pmm.bm.data, pool.bm, pool.bm.data
    {
      Both(vmm, pool) && LiveStacks(pool.bm.bits, live) && Balanced(pool.Now(), WorldOf(vmm), vmm.mmu.kernelPd, b)
    }

    ghost function Now(): Machine
      reads this, vmm, vmm.mmu, vmm.mmu.pmm, vmm.mmu.pmm.bm, pool, pool.mmu, pool.mmu.pmm, pool.mmu.pmm.bm, pool.bm
    {
      Machine(pool.Now(), WorldOf(vmm), pool.bm.bits, live, b)
    }

    /** A machine on which nothing has been done yet but the kernel's own set-up. */
    constructor (vmm: Vmm, pool: StackPool)
      requires Both(vmm, pool) && vmm.spaces == map[] && pool.l == Ledger(map[], {}, seq(SLOTS, _ => 0))
      requires pool.bm.bits == seq(SLOTS, _ => false)
      ensures Valid() && this.vmm == vmm && this.pool == pool && live == map[] && Quiet(pool.l, live)
      ensures b.data == {} && b.clean && b.forUser && b.open && b.plain == Plain(vmm.mmu.view[vmm.mmu.kernelPd])
    {
      this.vmm, this.pool, live := vmm, pool, map[];
      var used, owner, kpd := vmm.mmu.pmm.bm.bits, vmm.mmu.owner, vmm.mmu.kernelPd;
      var base := set f: nat | f < |used| && Held(used, owner, f);
      var tables := set f: nat | f in owner && Owns(owner, kpd, f);
      b := Books(base, tables, {}, Plain(vmm.mmu.view[kpd]), true, true, true);
      FirstTables(vmm);
    }

    method New() returns (g: Grant)
      requires Valid()
      modifies this`live, pool`l, pool.bm`bits, pool.bm.data, vmm.mmu`mem, vmm.mmu`view, vmm.mmu`owner,
               vmm.mmu.pmm, vmm.mmu.pmm.bm`bits, vmm.mmu.pmm.bm.data
      ensures Valid() && Step(old(Now()), Now(), vmm.mmu.kernelPd, NewStack)
      ensures g.Granted? <==> Succeeds(old(Now()), vmm.mmu.kernelPd, NewStack)
      ensures g.Granted? ==> SlotOf(g.stack) in live && live[SlotOf(g.stack)] == g.stack
      ensures g != AlreadyGranted && (g == NoSlot <==> false !in old(pool.bm.bits))
    {
      ghost var bits, pos := pool.bm.bits, 0;
      g, pos := AllocOnly();
      if g.Granted? {
        LiveAdded(bits, live, pos, g.stack);
        live := live[SlotOf(g.stack) := g.stack];
      }
    }

    /** The allocation, before the descriptor joins the others. */
    method AllocOnly() returns (g: Grant, ghost pos: nat)
      requires Valid()
      modifies pool`l, pool.bm`bits, pool.bm.data, vmm.mmu`mem, vmm.mmu`view, vmm.mmu`owner,
               vmm.mmu.pmm, vmm.mmu.pmm.bm`bits, vmm.mmu.pmm.bm.data
      ensures Both(vmm, pool) && Balanced(pool.Now(), WorldOf(vmm), vmm.mmu.kernelPd, b)
      ensures if g.Granted? then LowestClear(old(pool.bm.bits), pos) && pool.bm.bits == old(pool.bm.bits)[pos := true]
        && g.stack == Stack(SlotBase(pos), STACK_PAGES * PAGE) else pool.bm.bits == old(pool.bm.bits)
      ensures g.Granted? <==> Succeeds(old(Now()), vmm.mmu.kernelPd, NewStack)
      ensures g != AlreadyGranted && (g == NoSlot <==> false !in old(pool.bm.bits))
      ensures ScrapsGrow(old(pool.l), pool.l) && (SameScraps(old(pool.l), pool.l) <==> !Scraps(old(Now()), vmm.mmu.kernelPd, NewStack))
    {
      ghost var s, w := pool.Now(), WorldOf(vmm);
      g, pos := AllocStack(vmm, pool);
      StacksBalanced(s, pool.Now(), w, WorldOf(vmm), vmm.mmu.kernelPd, b);
    }

    /** Stacks are given back in any order. */
    method End(pos: nat)
      requires Valid() && pos in live
      modifies this`live, pool`l, pool.bm`bits, pool.bm.data, vmm.mmu`mem, vmm.mmu`view, vmm.mmu.pmm, vmm.mmu.pmm.bm`bits, vmm.mmu.pmm.bm.data
      ensures Valid() && live == old(live) - {pos} && SameScraps(old(pool.l), pool.l)
    {
      ghost var s, w := pool.Now(), WorldOf(vmm);
      var ok := FreeStack(vmm, pool, live[pos], pos);
      StacksBalanced(s, pool.Now(), w, WorldOf(vmm), vmm.mmu.kernelPd, b);
      live := live - {pos};
    }

    method Page(q: Request)
      requires Valid() && !q.Kernel?
      modifies this`b, vmm, vmm.mmu`mem, vmm.mmu`view, vmm.mmu`owner, vmm.mmu.pmm, vmm.mmu.pmm.bm`bits, vmm.mmu.pmm.bm.data
      ensures Valid() && pool.l == old(pool.l) && b == AfterPages(old(b), q, old(b).plain)
    {
      ghost var s, w := pool.Now(), WorldOf(vmm);
      ServeUser(vmm, pool, q);
      PagesBalanced(s, pool.Now(), w, WorldOf(vmm), vmm.mmu.kernelPd, b, q, b.plain);
      b := AfterPages(b, q, b.plain);
    }

    method Open() returns (pd: Option<nat>)
      requires Valid()
      modifies vmm, vmm.mmu`mem, vmm.mmu`view, vmm.mmu`owner, vmm.mmu.pmm, vmm.mmu.pmm.bm`bits, vmm.mmu.pmm.bm.data
      ensures Valid() && pool.l == old(pool.l) && pool.bm.bits == old(pool.bm.bits)
      ensures if pd.Some? then pd.value !in old(vmm.spaces) && vmm.spaces == old(vmm.spaces)[pd.value := []] else vmm.spaces == old(vmm.spaces)
      ensures pd.Some? <==> !NoLowFrame(old(vmm.mmu.pmm.bm.bits))
      ensures pd.Some? ==> CountFree(vmm.mmu.pmm.bm.bits) == CountFree(old(vmm.mmu.pmm.bm.bits)) - 1
      ensures vmm.mmu.view[vmm.mmu.kernelPd] == old(vmm.mmu.view)[vmm.mmu.kernelPd]
    {
      ghost var s, w := pool.Now(), WorldOf(vmm);
      pd := OpenSpace(vmm, pool);
      PagesBalanced(s, pool.Now(), w, WorldOf(vmm), vmm.mmu.kernelPd, b, NewSpace, b.plain);
    }

    method Close(pd: nat)
      requires Valid() && pd in vmm.spaces
      modifies vmm, vmm.mmu`view, vmm.mmu`owner, vmm.mmu.pmm, vmm.mmu.pmm.bm`bits, vmm.mmu.pmm.bm.data
      ensures Valid() && pool.l == old(pool.l) && pool.bm.bits == old(pool.bm.bits) && vmm.spaces == old(vmm.spaces) - {pd}
    {
      ghost var s, w := pool.Now(), WorldOf(vmm);
      CloseSpace(vmm, pool, pd);
      PagesBalanced(s, pool.Now(), w, WorldOf(vmm), vmm.mmu.kernelPd, b, EndSpace(pd), b.plain);
    }

    /** The stack of a process whose space is new; without one the space goes again. */
    method Equip(pd: nat) returns (ok: bool)
      requires Valid() && pd in vmm.spaces
      modifies this`live, vmm, pool`l, pool.bm`bits, pool.bm.data, vmm.mmu`mem, vmm.mmu`view, vmm.mmu`owner,
               vmm.mmu.pmm, vmm.mmu.pmm.bm`bits, vmm.mmu.pmm.bm.data
      ensures Valid() && vmm.spaces == if ok then old(vmm.spaces) else old(vmm.spaces) - {pd}
      ensures Step(old(Now()), Now(), vmm.mmu.kernelPd, NewStack) && (ok <==> Succeeds(old(Now()), vmm.mmu.kernelPd, NewStack))
    {
      var g := New();
      ok := g.Granted?;
      if !ok {
        Close(pd);
      }
    }

    /** `process_create`: a space and a stack, or neither; a failure leaves at most what the stack allocation leaves. */
    method Create() returns (pd: Option<nat>)
      requires Valid()
      modifies this`live, vmm, pool`l, pool.bm`bits, pool.bm.data, vmm.mmu`mem, vmm.mmu`view, vmm.mmu`owner,
               vmm.mmu.pmm, vmm.mmu.pmm.bm`bits, vmm.mmu.pmm.bm.data
      ensures Valid() && Step(old(Now()), Now(), vmm.mmu.kernelPd, NewProcess)
      ensures pd.Some? <==> Succeeds(old(Now()), vmm.mmu.kernelPd, NewProcess)
      ensures pd.Some? ==> pd.value !in old(vmm.spaces) && vmm.spaces == old(vmm.spaces)[pd.value := []]
      ensures pd == None ==> vmm.spaces == old(vmm.spaces)
    {
      ghost var m := Now();
      pd := Open();
      if pd.Some? {
        NewAndGone(m.w.spaces, pd.value);
        ghost var m1 := Now();
        var ok := Equip(pd.value);
        pd := if ok then pd else None;
        ProcessStep(m, m1, Now(), vmm.mmu.kernelPd);
      }
    }

    method KernelPage(op: KernelOp)
      requires Valid() && InDomain(op)
      modifies this`b, vmm.mmu`mem, vmm.mmu`view, vmm.mmu`owner, vmm.mmu.pmm, vmm.mmu.pmm.bm`bits, vmm.mmu.pmm.bm.data
      ensures Valid() && pool.l == old(pool.l) && b == old(b).(plain := b.plain)
    {
      ghost var s, w := pool.Now(), WorldOf(vmm);
      ServeKernel(vmm, pool, op);
      ghost var plain := Plain(vmm.mmu.view[vmm.mmu.kernelPd]);
      PagesBalanced(s, pool.Now(), w, WorldOf(vmm), vmm.mmu.kernelPd, b, Kernel(op), plain);
      b := AfterPages(b, Kernel(op), plain);
    }

    method Load(pd: nat, image: seq<Byte>, haveNode: nat -> bool) returns (r: Result, ghost stray: nat)
      requires Valid() && pd in vmm.spaces
      modifies this`b, vmm, vmm.mmu`mem, vmm.mmu`view, vmm.mmu`owner, vmm.mmu.pmm, vmm.mmu.pmm.bm`bits, vmm.mmu.pmm.bm.data
      ensures Valid() && pool.l == old(pool.l) && b == WithLoad(old(b), old(pool.Now()), pool.Now(), stray)
      ensures r == Ok ==> WellFormed(image) && ProgramIn(old(WorldOf(vmm)), WorldOf(vmm), pd, vmm.mmu.kernelPd, image)
    {
      ghost var s := pool.Now();
      r, stray := LoadOnly(pd, image, haveNode);
      b := WithLoad(b, s, pool.Now(), stray);
    }

    /** The load, before it is put in the books. */
    method LoadOnly(pd: nat, image: seq<Byte>, haveNode: nat -> bool) returns (r: Result, ghost stray: nat)
      requires Valid() && pd in vmm.spaces
      modifies vmm, vmm.mmu`mem, vmm.mmu`view, vmm.mmu`owner, vmm.mmu.pmm, vmm.mmu.pmm.bm`bits, vmm.mmu.pmm.bm.data
      ensures Both(vmm, pool) && pool.l == old(pool.l) && pool.bm.bits == old(pool.bm.bits)
      ensures Balanced(pool.Now(), WorldOf(vmm), vmm.mmu.kernelPd, WithLoad(b, old(pool.Now()), pool.Now(), stray))
      ensures r == Ok ==> WellFormed(image) && ProgramIn(old(WorldOf(vmm)), WorldOf(vmm), pd, vmm.mmu.kernelPd, image)
    {
      ghost var s, w := pool.Now(), WorldOf(vmm);
      r, stray := ServeLoad(vmm, pool, pd, image, haveNode);
      LoadBalanced(s, pool.Now(), w, WorldOf(vmm), vmm.mmu.kernelPd, b, pd, stray);
    }

    /** One request; `stray` is how many pages a failed load left on free frames. */
    method Serve(q: SystemRequest) returns (ghost stray: nat)
      requires Valid()
      modifies this`live, this`b, vmm, pool`l, pool.bm`bits, pool.bm.data, vmm.mmu`mem, vmm.mmu`view, vmm.mmu`owner,
               vmm.mmu.pmm, vmm.mmu.pmm.bm`bits, vmm.mmu.pmm.bm.data
      ensures Valid() && Follows(old(b), b, q, stray) && Step(old(Now()), Now(), vmm.mmu.kernelPd, q)
    {
      stray := 0;
      match q {
        case NewStack =>
          var g := New();
        case EndStack(pos) =>
          ServeEnd(q);
        case NewProcess =>
          var pd := Create();
        case Pages(_) =>
          ServePages(q);
        case LoadProgram(_, _, _) =>
          stray := ServeProgram(q);
      }
    }

    method ServeEnd(q: SystemRequest)
      requires Valid() && q.EndStack?
      modifies this`live, pool`l, pool.bm`bits, pool.bm.data, vmm.mmu`mem, vmm.mmu`view, vmm.mmu.pmm, vmm.mmu.pmm.bm`bits, vmm.mmu.pmm.bm.data
      ensures Valid() && Step(old(Now()), Now(), vmm.mmu.kernelPd, q)
    {
      ghost var m := Now();
      if q.pos in live { End(q.pos); }
      OtherStep(m, Now(), vmm.mmu.kernelPd, q);
    }

    method ServePages(q: SystemRequest)
      requires Valid() && q.Pages?
      modifies this`b, vmm, vmm.mmu`mem, vmm.mmu`view, vmm.mmu`owner, vmm.mmu.pmm, vmm.mmu.pmm.bm`bits, vmm.mmu.pmm.bm.data
      ensures Valid() && Follows(old(b), b, q, 0) && Step(old(Now()), Now(), vmm.mmu.kernelPd, q)
    {
      ghost var m := Now();
      if !q.q.Kernel? {
        Page(q.q);
      } else if InDomain(q.q.op) {
        KernelPage(q.q.op);
      }
      OtherStep(m, Now(), vmm.mmu.kernelPd, q);
    }

    method ServeProgram(q: SystemRequest) returns (ghost stray: nat)
      requires Valid() && q.LoadProgram?
      modifies this`b, vmm, vmm.mmu`mem, vmm.mmu`view, vmm.mmu`owner, vmm.mmu.pmm, vmm.mmu.pmm.bm`bits, vmm.mmu.pmm.bm.data
      ensures Valid() && Follows(old(b), b, q, stray) && Step(old(Now()), Now(), vmm.mmu.kernelPd, q)
    {
      stray := 0;
      if q.pd in vmm.spaces {
        var r;
        r, stray := Load(q.pd, q.image, q.haveNode);
      }
      OtherStep(old(Now()), Now(), vmm.mmu.kernelPd, q);
    }

    lemma InOrder()
      requires Valid()
      ensures Ordered(Now(), vmm.mmu.kernelPd) && vmm.mmu.pmm.freeFrames == CountFree(Now().w.used) && |Now().w.used| == vmm.mmu.pmm.bm.nbits
    {
    }

    /** The requests one by one. */
    method ServeAll(requests: seq<SystemRequest>) returns (ghost stray: nat, ghost trace: seq<Machine>)
      requires Valid()
      modifies this`live, this`b, vmm, pool`l, pool.bm`bits, pool.bm.data, vmm.mmu`mem, vmm.mmu`view, vmm.mmu`owner,
               vmm.mmu.pmm, vmm.mmu.pmm.bm`bits, vmm.mmu.pmm.bm.data
      ensures Valid() && FollowsAll(old(b), b, requests, stray)
      ensures Ran(old(Now()), Now(), trace, requests, vmm.mmu.kernelPd)
    {
      ghost var m, kpd := Now(), vmm.mmu.kernelPd;
      stray, trace := 0, [m];
      RunningStarts(m, requests, kpd);
      for i := 0 to |requests|
        invariant Valid() && Running(m, Now(), trace, requests, i, stray, kpd)
      {
        ghost var m1 := Now();
        ghost var strayed := Serve(requests[i]);
        RunningMore(m, m1, Now(), trace, requests, i, stray, strayed, kpd);
        stray, trace := stray + strayed, trace + [Now()];
      }
      assert requests[..|requests|] == requests;
    }

    /**
     * Any run of stack, process, page and loading requests.  The slots in use are the stacks handed out, each with four
     * frames of its own.  `trace` is the machine before each request: whether a request gets its stack or leaves scraps is
     * told from there.  If all stacks are given back, in any order, what is in use is what was at the start, the programs'
     * frames and the tables exactly if no request left scraps; with the process spaces gone too, all is as at the start.
     */
    method Run(requests: seq<SystemRequest>) returns (ghost stray: nat, ghost trace: seq<Machine>)
      requires Valid()
      modifies this`live, this`b, vmm, pool`l, pool.bm`bits, pool.bm.data, vmm.mmu`mem, vmm.mmu`view, vmm.mmu`owner,
               vmm.mmu.pmm, vmm.mmu.pmm.bm`bits, vmm.mmu.pmm.bm.data
      ensures Valid() && FollowsAll(old(b), b, requests, stray)
      ensures Traced(trace, requests, vmm.mmu.kernelPd) && trace[0] == old(Now()) && trace[|requests|] == Now()
      ensures SameScraps(old(pool.l), pool.l) <==> NoneWasted(trace, requests, vmm.mmu.kernelPd)
      ensures LiveStacks(pool.bm.bits, live) && AllBacked(Now().s, vmm.mmu.kernelPd, live)
      ensures OwnFrames(Now().s, Now().w, vmm.mmu.kernelPd, b, live)
      ensures Descriptors(pool.bm.bits, live) && OwnAddresses(Now().s, Now().w, vmm.mmu.kernelPd, b, live)
      ensures (b.clean ==> Isolated(Now().w)) && (b.clean || b.forUser ==> AsMapped(Now().w))
      ensures b.forUser && b.open ==> AllAccessible(Now().w)
      ensures live == map[] ==> (NoScraps(pool.l) <==> OnlyThese(Now().s, b.base + b.data))
      ensures NoScraps(old(pool.l)) && live == map[] ==>
        (OnlyThese(Now().s, b.base + b.data) <==> NoneWasted(trace, requests, vmm.mmu.kernelPd))
      ensures NoScraps(old(pool.l)) && live == map[] && NoneWasted(trace, requests, vmm.mmu.kernelPd) ==>
        vmm.mmu.view[vmm.mmu.kernelPd] == b.plain
      ensures NothingOpen(old(Now())) && NothingOpen(Now()) && b.data == old(b).data ==>
        && pool.bm.bits == old(pool.bm.bits) && vmm.mmu.pmm.bm.bits == old(vmm.mmu.pmm.bm.bits)
        && vmm.mmu.pmm.freeFrames == old(vmm.mmu.pmm.freeFrames)
      ensures NothingOpen(old(Now())) && NothingOpen(Now()) && b.plain == old(b).plain ==>
        vmm.mmu.view == old(vmm.mmu.view)
    {
      ghost var m := Now();
      InOrder();
      stray, trace := ServeAll(requests);
      InOrder();
      Summary(Now(), vmm.mmu.kernelPd);
      BackAgain(m, Now(), vmm.mmu.kernelPd);
      if NoScraps(m.s.l) { StillNoScraps(m.s.l, Now().s.l); }
    }
  }

  /** At the start all tables are the kernel's. */
  lemma FirstTables(vmm: Vmm)
    requires vmm.Valid() && vmm.spaces == map[]
    ensures AllForUser(vmm.mmu.owner, vmm.mmu.kernelPd)
  {
    var mmu := vmm.mmu;
    forall f {:trigger mmu.owner[f]} | f in mmu.owner && mmu.owner[f].TableIn? ensures mmu.owner[f].pd == mmu.kernelPd {
      assert OwnerOk(mmu.mem, mmu.kernelPd, mmu.view.Keys, mmu.owner, f);
      assert forall p :: p in mmu.view.Keys && p != mmu.kernelPd ==> p in vmm.spaces.Keys;
    }
  }

  /** A space, and then the stack or nothing. */
  lemma ProcessStep(m: Machine, m1: Machine, m2: Machine, kpd: nat)
    requires kpd in m.s.view && kpd in m1.s.view && m1.s.view[kpd] == m.s.view[kpd] && m1.bits == m.bits && m1.live == m.live && m1.s.l == m.s.l
    requires !NoLowFrame(m.s.used) && CountFree(m1.s.used) == CountFree(m.s.used) - 1 && Step(m1, m2, kpd, NewStack)
    ensures Step(m, m2, kpd, NewProcess) && (Succeeds(m, kpd, NewProcess) <==> Succeeds(m1, kpd, NewStack))
  {
  }

  /** After the kernel's own set-up nothing is open. */
  method Start(mmu: Mmu) returns (system: System)
    requires mmu.Valid() && mmu.view.Keys == {mmu.kernelPd} && mmu.pmm.bm.nbits <= PAGES
    requires forall v: nat :: IsSlotPage(v) ==> mmu.view[mmu.kernelPd][v] == None
    ensures system.Valid() && NothingOpen(system.Now()) && system.b.data == {} && system.b.clean && system.b.forUser && system.b.open
    ensures system.vmm.mmu == mmu && system.b.plain == mmu.view[mmu.kernelPd]
  {
    var vmm := new Vmm(mmu);
    var pool := new StackPool(mmu);
    system := new System(vmm, pool);
    assert system.b.plain == mmu.view[mmu.kernelPd];
  }
}

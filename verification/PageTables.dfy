/**
 * Two-level 32-bit paging (`kernel/arch/x86/mm.c`) over physical memory, and what it
 * means: a finite map from virtual page to frame and permissions.
 *
 * Physical memory is a dictionary from frame number to the 1024 words of the frame.
 */
module PageTables {

  type Table = t: seq<nat> | |t| == 1024 witness seq(1024, _ => 0)
  type Memory = map<nat, Table>

  const ENTRIES: nat := 1024
  const KERNEL_BASE: nat := 768
  const PAGES: nat := 0x10_0000
  const KERNEL_PAGES: nat := 0xC_0000

  /** Generic mapping permissions, `VM_READ` to `VM_GROWSDOWN`. */
  datatype Flags = Flags(read: bool, write: bool, exec: bool, user: bool, growsDown: bool)

  datatype Option<T> = None | Some(value: T)

  /** What a page table entry says of one page. */
  datatype Mapping = Mapping(frame: nat, writable: bool, user: bool)

  // ---- Entries ----

  predicate Present(w: nat) { w % 2 == 1 }
  predicate Writable(w: nat) { w / 2 % 2 == 1 }
  predicate User(w: nat) { w / 4 % 2 == 1 }
  predicate LargePage(w: nat) { w / 128 % 2 == 1 }
  function FrameOf(w: nat): nat { w / 4096 }

  function PteBits(flags: Flags): nat {
    1 + (if flags.write then 2 else 0) + (if flags.user then 4 else 0)
  }

  function PdeBits(flags: Flags): nat {
    3 + if flags.user then 4 else 0
  }

  /** An aligned frame address combined with low flag bits. */
  function Entry(frame: nat, bits: nat): nat { frame * 4096 + bits }

  lemma EntryParts(frame: nat, bits: nat)
    requires bits < 128
    ensures var e := Entry(frame, bits);
      && FrameOf(e) == frame && Present(e) == Present(bits) && !LargePage(e)
      && Writable(e) == Writable(bits) && User(e) == User(bits)
  {
    Over4096(frame, bits);
    LowBits(frame, bits);
    UserBit(frame, bits);
    LargeBit(frame, bits);
  }

  lemma LowBits(frame: nat, bits: nat)
    ensures Present(Entry(frame, bits)) == Present(bits) && Writable(Entry(frame, bits)) == Writable(bits)
  {
    assert Entry(frame, bits) == 2 * (2048 * frame) + bits;
    Over2(2048 * frame, bits);
    Over2(1024 * frame, bits / 2);
  }

  lemma UserBit(frame: nat, bits: nat)
    ensures User(Entry(frame, bits)) == User(bits)
  {
    assert Entry(frame, bits) == 4 * (1024 * frame) + bits;
    Over4(1024 * frame, bits);
    Over2(512 * frame, bits / 4);
  }

  lemma LargeBit(frame: nat, bits: nat)
    requires bits < 128
    ensures !LargePage(Entry(frame, bits))
  {
    assert Entry(frame, bits) == 128 * (32 * frame) + bits;
    Over128(32 * frame, bits);
    Over2(16 * frame, 0);
  }

  // One shift each.

  lemma Over2(q: nat, b: nat)
    ensures (2 * q + b) % 2 == b % 2 && (2 * q + b) / 2 == q + b / 2
  {
  }

  lemma Over4(q: nat, b: nat)
    ensures (4 * q + b) / 4 == q + b / 4
  {
  }

  lemma Over128(q: nat, b: nat)
    requires b < 128
    ensures (128 * q + b) / 128 == q
  {
  }

  lemma Over4096(q: nat, b: nat)
    requires b < 4096
    ensures (4096 * q + b) / 4096 == q
  {
  }

  /** Joining an aligned address and flag bits by bitwise or is the addition of `Entry`. */
  lemma OrIsAdd(address: bv32, bits: bv32)
    requires address & 0xFFF == 0 && bits <= 0xFFF
    ensures address | bits == address + bits
  {
  }

  /** The whole word of a page table entry, and of a directory entry. */
  predicate PteIs(w: nat, frame: nat, writable: bool, user: bool) {
    w == frame * 4096 + 1 + (if writable then 2 else 0) + (if user then 4 else 0)
  }

  predicate PdeIs(w: nat, table: nat, user: bool) {
    w == table * 4096 + 3 + if user then 4 else 0
  }

  /** A word of a page table: nothing, or an entry without any other bit. */
  ghost predicate PlainAt(t: Table, j: nat) {
    j < ENTRIES && (t[j] == 0 || PteIs(t[j], FrameOf(t[j]), Writable(t[j]), User(t[j])))
  }

  ghost predicate AllPlain(t: Table) {
    forall j: nat {:trigger PlainAt(t, j)} :: j < ENTRIES ==> PlainAt(t, j)
  }

  function PteMapping(w: nat): Option<Mapping> {
    if Present(w) then Some(Mapping(FrameOf(w), Writable(w), User(w))) else None
  }

  // ---- Translation ----

  /** The table through which directory `pd` reaches slot `i`. */
  function TableOf(mem: Memory, pd: nat, i: nat): Option<nat>
    requires pd in mem && i < ENTRIES
  {
    var pde := mem[pd][i];
    if Present(pde) && !LargePage(pde) then Some(FrameOf(pde)) else None
  }

  /** The abstract address space: page number to mapping. */
  function Lookup(mem: Memory, pd: nat, page: nat): Option<Mapping>
    requires pd in mem && page < PAGES
  {
    match TableOf(mem, pd, page / ENTRIES)
    case None => None
    case Some(pt) => if pt in mem then PteMapping(mem[pt][page % ENTRIES]) else None
  }

  // ---- The abstract machine: what every space maps ----

  type Space = s: seq<Option<Mapping>> | |s| == PAGES witness seq(PAGES, _ => None)
  type View = map<nat, Space>

  /** The tables of each directory in `view` translate as the view says. */
  ghost predicate Refines(mem: Memory, view: View) {
    && (forall p :: p in view ==> p in mem)
    && forall p, v: nat {:trigger Lookup(mem, p, v)} :: p in view && v < PAGES ==> Lookup(mem, p, v) == view[p][v]
  }

  // ---- Ownership of the table frames ----

  /** What a table frame is for; a table remembers whether the mapping that made it was for the user. */
  datatype Owner = Directory | TableIn(pd: nat, index: nat, user: bool)

  /** The kernel half of every directory is the kernel's. */
  ghost function Holder(kpd: nat, p: nat, i: nat): nat { if i < KERNEL_BASE then p else kpd }

  ghost predicate PdeOk(mem: Memory, kpd: nat, owner: map<nat, Owner>, p: nat, i: nat)
    requires p in mem && i < ENTRIES
  {
    var e := mem[p][i];
    Present(e) ==>
      && !LargePage(e) && Writable(e) && FrameOf(e) in owner && PdeIs(e, FrameOf(e), User(e))
      && owner[FrameOf(e)] == TableIn(Holder(kpd, p, i), i, User(e))
      && (i >= KERNEL_BASE ==> !User(e))
  }

  /** Frame `f` is really what its owner entry says. */
  ghost predicate OwnerOk(mem: Memory, kpd: nat, dirs: set<nat>, owner: map<nat, Owner>, f: nat)
    requires f in owner && forall p :: p in dirs ==> p in mem
  {
    match owner[f]
    case Directory => f in dirs
    case TableIn(p, i, _) =>
      && p in dirs && i < ENTRIES && (i < KERNEL_BASE <==> p != kpd)
      && Present(mem[p][i]) && FrameOf(mem[p][i]) == f && f in mem && AllPlain(mem[f])
  }

  /** All of RAM is there. */
  ghost predicate Ram(mem: Memory, frames: nat) {
    forall f: nat {:trigger f in mem} :: f < frames ==> f in mem
  }

  ghost predicate Allocated(used: seq<bool>, f: nat) {
    f < |used| && used[f] && f < 0x3_0000
  }

  /**
   * The ownership invariant.  `dirs` are the live directories, with the kernel's `kpd`
   * among them; the kernel slots below `ready` have their table.
   */
  ghost predicate Sound(mem: Memory, used: seq<bool>, kpd: nat, dirs: set<nat>, owner: map<nat, Owner>, ready: nat) {
    && Ram(mem, |used|) && kpd in dirs && KERNEL_BASE <= ready <= ENTRIES
    && (forall f {:trigger Allocated(used, f)} :: f in owner ==> Allocated(used, f))
    && (forall p :: p in dirs ==> p in mem && p in owner && owner[p] == Directory)
    && (forall p, i: nat {:trigger PdeOk(mem, kpd, owner, p, i)} :: p in dirs && i < ENTRIES ==> PdeOk(mem, kpd, owner, p, i))
    && (forall f {:trigger OwnerOk(mem, kpd, dirs, owner, f)} :: f in owner ==> OwnerOk(mem, kpd, dirs, owner, f))
    && (forall i: nat {:trigger mem[kpd][i]} :: KERNEL_BASE <= i < ready ==> Present(mem[kpd][i]))
    && (forall i: nat {:trigger mem[kpd][i]} :: i < KERNEL_BASE || ready <= i < ENTRIES ==> mem[kpd][i] == 0)
    && (forall p, i: nat {:trigger SameSlot(mem, kpd, p, i)} :: p in dirs && KERNEL_BASE <= i < ENTRIES ==> SameSlot(mem, kpd, p, i))
  }

  ghost predicate SameSlot(mem: Memory, kpd: nat, p: nat, i: nat)
    requires kpd in mem && p in mem && i < ENTRIES
  {
    mem[p][i] == mem[kpd][i]
  }

  /** Page `v` of directory `p` is the same page as page `v` of `pd`: the same space, or the kernel half. */
  ghost predicate Shares(pd: nat, p: nat, v: nat) {
    p == pd || v >= KERNEL_PAGES
  }

  /** The view in which the shared page `page` of `pd` has mapping `m`. */
  ghost function SetPage(view: View, pd: nat, page: nat, m: Option<Mapping>): View
    requires page < PAGES
  {
    map p | p in view :: if Shares(pd, p, page) then view[p][page := m] else view[p]
  }

  // ---- Storing one table entry ----

  function WithEntry(mem: Memory, t: nat, j: nat, w: nat): Memory
    requires t in mem && j < ENTRIES
  {
    mem[t := mem[t][j := w]]
  }

  /** Only directories point at tables, so a store into the table of slot `i` leaves every directory alone. */
  lemma TableIsNoDirectory(mem: Memory, used: seq<bool>, kpd: nat, dirs: set<nat>, owner: map<nat, Owner>, ready: nat,
                           pd: nat, i: nat)
    requires Sound(mem, used, kpd, dirs, owner, ready) && pd in dirs && i < ENTRIES && Present(mem[pd][i])
    ensures !LargePage(mem[pd][i]) && FrameOf(mem[pd][i]) in mem && FrameOf(mem[pd][i]) in owner
    ensures owner[FrameOf(mem[pd][i])] == TableIn(Holder(kpd, pd, i), i, User(mem[pd][i])) && Writable(mem[pd][i])
    ensures FrameOf(mem[pd][i]) !in dirs && PdeIs(mem[pd][i], FrameOf(mem[pd][i]), User(mem[pd][i])) && AllPlain(mem[FrameOf(mem[pd][i])])
  {
    assert PdeOk(mem, kpd, owner, pd, i);
    assert Allocated(used, FrameOf(mem[pd][i]));
    assert OwnerOk(mem, kpd, dirs, owner, FrameOf(mem[pd][i]));
  }

  /** The only pages that see the store are the shared page itself. */
  lemma StoreSeen(mem: Memory, used: seq<bool>, kpd: nat, dirs: set<nat>, owner: map<nat, Owner>, ready: nat,
                  pd: nat, page: nat, w: nat, p: nat, v: nat)
    requires Sound(mem, used, kpd, dirs, owner, ready) && pd in dirs && p in dirs && page < PAGES && v < PAGES
    requires Present(mem[pd][page / ENTRIES]) && FrameOf(mem[pd][page / ENTRIES]) in mem
    ensures var mem' := WithEntry(mem, FrameOf(mem[pd][page / ENTRIES]), page % ENTRIES, w);
      && p in mem'
      && Lookup(mem', p, v) == if v == page && Shares(pd, p, v) then PteMapping(w) else Lookup(mem, p, v)
  {
    var i := page / ENTRIES;
    TableIsNoDirectory(mem, used, kpd, dirs, owner, ready, pd, i);
    if Present(mem[p][v / ENTRIES]) {
      TableIsNoDirectory(mem, used, kpd, dirs, owner, ready, p, v / ENTRIES);
    }
    assert v / ENTRIES == i && v % ENTRIES == page % ENTRIES ==> v == page;
    if v == page && i >= KERNEL_BASE {
      assert SameSlot(mem, kpd, p, i) && SameSlot(mem, kpd, pd, i);
    }
  }

  /** The store refines the change of one page in the abstract machine. */
  lemma StoreRefines(mem: Memory, used: seq<bool>, kpd: nat, owner: map<nat, Owner>, ready: nat, view: View,
                     pd: nat, page: nat, w: nat)
    requires Sound(mem, used, kpd, view.Keys, owner, ready) && Refines(mem, view) && pd in view && page < PAGES
    requires Present(mem[pd][page / ENTRIES]) && FrameOf(mem[pd][page / ENTRIES]) in mem
    ensures Refines(WithEntry(mem, FrameOf(mem[pd][page / ENTRIES]), page % ENTRIES, w), SetPage(view, pd, page, PteMapping(w)))
  {
    var mem' := WithEntry(mem, FrameOf(mem[pd][page / ENTRIES]), page % ENTRIES, w);
    forall p, v: nat {:trigger Lookup(mem', p, v)} | p in view && v < PAGES
      ensures p in mem' && Lookup(mem', p, v) == SetPage(view, pd, page, PteMapping(w))[p][v]
    {
      StoreSeen(mem, used, kpd, view.Keys, owner, ready, pd, page, w, p, v);
      assert Lookup(mem, p, v) == view[p][v];
    }
  }

  lemma StoreSound(mem: Memory, used: seq<bool>, kpd: nat, dirs: set<nat>, owner: map<nat, Owner>, ready: nat,
                   pd: nat, i: nat, j: nat, w: nat)
    requires Sound(mem, used, kpd, dirs, owner, ready) && pd in dirs && i < ENTRIES && j < ENTRIES
    requires Present(mem[pd][i]) && FrameOf(mem[pd][i]) in mem && (w == 0 || PteIs(w, FrameOf(w), Writable(w), User(w)))
    ensures Sound(WithEntry(mem, FrameOf(mem[pd][i]), j, w), used, kpd, dirs, owner, ready)
  {
    var t := FrameOf(mem[pd][i]);
    TableIsNoDirectory(mem, used, kpd, dirs, owner, ready, pd, i);
    StillPlain(mem[t], j, w);
    DirsKept(mem, WithEntry(mem, t, j, w), used, kpd, dirs, owner, ready);
  }

  lemma StillPlain(t: Table, j: nat, w: nat)
    requires AllPlain(t) && j < ENTRIES && (w == 0 || PteIs(w, FrameOf(w), Writable(w), User(w)))
    ensures AllPlain(t[j := w])
  {
    forall k: nat {:trigger PlainAt(t[j := w], k)} | k < ENTRIES ensures PlainAt(t[j := w], k) {
      assert PlainAt(t, k);
    }
  }

  /** Ownership only depends on the directories' words and on the tables being plain. */
  lemma DirsKept(mem: Memory, mem': Memory, used: seq<bool>, kpd: nat, dirs: set<nat>, owner: map<nat, Owner>, ready: nat)
    requires Sound(mem, used, kpd, dirs, owner, ready)
    requires Ram(mem', |used|) && forall p :: p in dirs ==> p in mem' && mem'[p] == mem[p]
    requires forall f :: f in owner && f in mem && f !in dirs ==> f in mem' && (AllPlain(mem[f]) ==> AllPlain(mem'[f]))
    ensures Sound(mem', used, kpd, dirs, owner, ready)
  {
    forall p, i: nat {:trigger PdeOk(mem', kpd, owner, p, i)} | p in dirs && i < ENTRIES
      ensures PdeOk(mem', kpd, owner, p, i)
    {
      assert PdeOk(mem, kpd, owner, p, i);
    }
    forall f {:trigger OwnerOk(mem', kpd, dirs, owner, f)} | f in owner
      ensures OwnerOk(mem', kpd, dirs, owner, f)
    {
      assert OwnerOk(mem, kpd, dirs, owner, f);
    }
    forall p, i: nat {:trigger SameSlot(mem', kpd, p, i)} | p in dirs && KERNEL_BASE <= i < ENTRIES
      ensures SameSlot(mem', kpd, p, i)
    {
      assert SameSlot(mem, kpd, p, i);
    }
  }

  // ---- A new table ----

  function Zeros(): Table { seq(1024, _ => 0) }

  lemma ZerosPlain()
    ensures AllPlain(Zeros())
  {
    forall j: nat {:trigger PlainAt(Zeros(), j)} | j < ENTRIES ensures PlainAt(Zeros(), j) {
    }
  }

  function WithTable(mem: Memory, f: nat, pd: nat, i: nat, e: nat): Memory
    requires pd in mem && i < ENTRIES
  {
    mem[f := Zeros()][pd := mem[pd][i := e]]
  }

  /** A slot that may still get a table: a user slot of a process, or the kernel's next one. */
  ghost predicate Vacant(mem: Memory, kpd: nat, dirs: set<nat>, ready: nat, pd: nat, i: nat) {
    && pd in dirs && pd in mem && i < ENTRIES && !Present(mem[pd][i])
    && if i < KERNEL_BASE then pd != kpd else pd == kpd && dirs == {kpd} && i == ready
  }

  ghost predicate FreshFrame(used: seq<bool>, f: nat) {
    f < |used| && !used[f] && f < 0x3_0000
  }

  ghost predicate TableEntry(f: nat, e: nat, i: nat) {
    && Present(e) && !LargePage(e) && Writable(e) && FrameOf(e) == f && (i >= KERNEL_BASE ==> !User(e))
    && PdeIs(e, f, User(e))
  }

  ghost function ReadyAfter(ready: nat, i: nat): nat { if i < KERNEL_BASE then ready else i + 1 }

  lemma InstallSound(mem: Memory, used: seq<bool>, kpd: nat, dirs: set<nat>, owner: map<nat, Owner>, ready: nat,
                     f: nat, pd: nat, i: nat, e: nat)
    requires Sound(mem, used, kpd, dirs, owner, ready) && Vacant(mem, kpd, dirs, ready, pd, i)
    requires FreshFrame(used, f) && TableEntry(f, e, i)
    ensures Sound(WithTable(mem, f, pd, i, e), used[f := true], kpd, dirs, owner[f := TableIn(pd, i, User(e))], ReadyAfter(ready, i))
  {
    var mem', owner' := WithTable(mem, f, pd, i, e), owner[f := TableIn(pd, i, User(e))];
    assert f in owner ==> Allocated(used, f);
    forall p, k: nat {:trigger PdeOk(mem', kpd, owner', p, k)} | p in dirs && k < ENTRIES
      ensures PdeOk(mem', kpd, owner', p, k)
    {
      assert PdeOk(mem, kpd, owner, p, k);
    }
    forall g {:trigger OwnerOk(mem', kpd, dirs, owner', g)} | g in owner'
      ensures OwnerOk(mem', kpd, dirs, owner', g)
    {
      if g != f { assert OwnerOk(mem, kpd, dirs, owner, g); } else { ZerosPlain(); }
    }
    forall p, k: nat {:trigger SameSlot(mem', kpd, p, k)} | p in dirs && KERNEL_BASE <= k < ENTRIES
      ensures SameSlot(mem', kpd, p, k)
    {
      assert SameSlot(mem, kpd, p, k);
    }
    forall g {:trigger Allocated(used[f := true], g)} | g in owner'
      ensures Allocated(used[f := true], g)
    {
      assert g != f ==> Allocated(used, g);
    }
  }

  /** The new table is empty, so no page gains or loses a mapping. */
  lemma InstallSeen(mem: Memory, used: seq<bool>, kpd: nat, dirs: set<nat>, owner: map<nat, Owner>, ready: nat,
                    f: nat, pd: nat, i: nat, e: nat, p: nat, v: nat)
    requires Sound(mem, used, kpd, dirs, owner, ready) && Vacant(mem, kpd, dirs, ready, pd, i)
    requires FreshFrame(used, f) && TableEntry(f, e, i) && p in dirs && v < PAGES
    ensures var mem' := WithTable(mem, f, pd, i, e); p in mem' && Lookup(mem', p, v) == Lookup(mem, p, v)
  {
    assert f in owner ==> Allocated(used, f);
    if Present(mem[p][v / ENTRIES]) {
      TableIsNoDirectory(mem, used, kpd, dirs, owner, ready, p, v / ENTRIES);
    }
  }

  lemma InstallRefines(mem: Memory, used: seq<bool>, kpd: nat, owner: map<nat, Owner>, ready: nat, view: View,
                       f: nat, pd: nat, i: nat, e: nat)
    requires Sound(mem, used, kpd, view.Keys, owner, ready) && Refines(mem, view)
    requires Vacant(mem, kpd, view.Keys, ready, pd, i) && FreshFrame(used, f) && TableEntry(f, e, i)
    ensures Refines(WithTable(mem, f, pd, i, e), view)
  {
    var mem' := WithTable(mem, f, pd, i, e);
    forall p, v: nat {:trigger Lookup(mem', p, v)} | p in view && v < PAGES
      ensures p in mem' && Lookup(mem', p, v) == view[p][v]
    {
      InstallSeen(mem, used, kpd, view.Keys, owner, ready, f, pd, i, e, p, v);
      assert Lookup(mem, p, v) == view[p][v];
    }
  }

  // ---- A new directory ----

  /** Empty below, the kernel's entries above. */
  ghost predicate Attached(mem: Memory, kpd: nat, d: Table)
    requires kpd in mem
  {
    forall i: nat :: i < ENTRIES ==> d[i] == if i < KERNEL_BASE then 0 else mem[kpd][i]
  }

  lemma DirectorySound(mem: Memory, used: seq<bool>, kpd: nat, dirs: set<nat>, owner: map<nat, Owner>, ready: nat,
                       f: nat, d: Table)
    requires Sound(mem, used, kpd, dirs, owner, ready) && FreshFrame(used, f) && Attached(mem, kpd, d)
    ensures f !in dirs
    ensures Sound(mem[f := d], used[f := true], kpd, dirs + {f}, owner[f := Directory], ready)
  {
    var mem', dirs', owner' := mem[f := d], dirs + {f}, owner[f := Directory];
    assert f in owner ==> Allocated(used, f);
    forall p, k: nat {:trigger PdeOk(mem', kpd, owner', p, k)} | p in dirs' && k < ENTRIES
      ensures PdeOk(mem', kpd, owner', p, k)
    {
      assert PdeOk(mem, kpd, owner, if p == f then kpd else p, k);
    }
    forall g {:trigger OwnerOk(mem', kpd, dirs', owner', g)} | g in owner'
      ensures OwnerOk(mem', kpd, dirs', owner', g)
    {
      if g != f { assert OwnerOk(mem, kpd, dirs, owner, g); }
    }
    forall p, k: nat {:trigger SameSlot(mem', kpd, p, k)} | p in dirs' && KERNEL_BASE <= k < ENTRIES
      ensures SameSlot(mem', kpd, p, k)
    {
      assert SameSlot(mem, kpd, if p == f then kpd else p, k);
    }
    forall g {:trigger Allocated(used[f := true], g)} | g in owner'
      ensures Allocated(used[f := true], g)
    {
      assert g != f ==> Allocated(used, g);
    }
  }

  /** The new space has the kernel's pages and no others; nobody else's pages change. */
  lemma DirectorySeen(mem: Memory, used: seq<bool>, kpd: nat, dirs: set<nat>, owner: map<nat, Owner>, ready: nat,
                      f: nat, d: Table, p: nat, v: nat)
    requires Sound(mem, used, kpd, dirs, owner, ready) && FreshFrame(used, f) && Attached(mem, kpd, d)
    requires p in dirs && v < PAGES
    ensures p in mem[f := d] && Lookup(mem[f := d], p, v) == Lookup(mem, p, v)
    ensures Lookup(mem[f := d], f, v) == if v / ENTRIES < KERNEL_BASE then None else Lookup(mem, kpd, v)
  {
    assert f in owner ==> Allocated(used, f);
    if Present(mem[p][v / ENTRIES]) {
      TableIsNoDirectory(mem, used, kpd, dirs, owner, ready, p, v / ENTRIES);
    }
    if Present(mem[kpd][v / ENTRIES]) {
      TableIsNoDirectory(mem, used, kpd, dirs, owner, ready, kpd, v / ENTRIES);
    }
  }

  /** The abstract space of a new directory. */
  ghost function KernelOnly(kernel: Space): Space {
    seq(PAGES, v requires 0 <= v < PAGES => if v < KERNEL_PAGES then None else kernel[v])
  }

  lemma DirectoryRefines(mem: Memory, used: seq<bool>, kpd: nat, owner: map<nat, Owner>, ready: nat, view: View, f: nat, d: Table)
    requires Sound(mem, used, kpd, view.Keys, owner, ready) && Refines(mem, view)
    requires FreshFrame(used, f) && Attached(mem, kpd, d)
    ensures Refines(mem[f := d], view[f := KernelOnly(view[kpd])])
  {
    var mem', view' := mem[f := d], view[f := KernelOnly(view[kpd])];
    forall p, v: nat {:trigger Lookup(mem', p, v)} | p in view' && v < PAGES
      ensures p in mem' && Lookup(mem', p, v) == view'[p][v]
    {
      var q := if p == f then kpd else p;
      DirectorySeen(mem, used, kpd, view.Keys, owner, ready, f, d, q, v);
      assert Lookup(mem, q, v) == view[q][v];
    }
  }

  // ---- Giving a space back ----

  /** Frame `f` is the directory `pd` or one of its private tables. */
  ghost predicate Owns(owner: map<nat, Owner>, pd: nat, f: nat) {
    f in owner && if owner[f].Directory? then f == pd else owner[f].pd == pd
  }

  ghost function Disown(owner: map<nat, Owner>, pd: nat): map<nat, Owner> {
    map f | f in owner && !Owns(owner, pd, f) :: owner[f]
  }

  ghost predicate FreedExactly(used: seq<bool>, used': seq<bool>, owner: map<nat, Owner>, pd: nat) {
    |used'| == |used| && forall f: nat :: f < |used| ==> used'[f] == (used[f] && !Owns(owner, pd, f))
  }

  lemma DestroySound(mem: Memory, used: seq<bool>, used': seq<bool>, kpd: nat, dirs: set<nat>, owner: map<nat, Owner>,
                     ready: nat, pd: nat)
    requires Sound(mem, used, kpd, dirs, owner, ready) && pd in dirs && pd != kpd
    requires FreedExactly(used, used', owner, pd)
    ensures Sound(mem, used', kpd, dirs - {pd}, Disown(owner, pd), ready)
  {
    var dirs', owner' := dirs - {pd}, Disown(owner, pd);
    forall g {:trigger Allocated(used', g)} | g in owner'
      ensures Allocated(used', g)
    {
      assert Allocated(used, g);
    }
    forall p, k: nat {:trigger PdeOk(mem, kpd, owner', p, k)} | p in dirs' && k < ENTRIES
      ensures PdeOk(mem, kpd, owner', p, k)
    {
      assert PdeOk(mem, kpd, owner, p, k);
    }
    forall g {:trigger OwnerOk(mem, kpd, dirs', owner', g)} | g in owner'
      ensures OwnerOk(mem, kpd, dirs', owner', g)
    {
      assert OwnerOk(mem, kpd, dirs, owner, g);
    }
    forall p, k: nat {:trigger SameSlot(mem, kpd, p, k)} | p in dirs' && KERNEL_BASE <= k < ENTRIES
      ensures SameSlot(mem, kpd, p, k)
    {
      assert SameSlot(mem, kpd, p, k);
    }
  }

  // ---- Frames that hold no table ----

  /** Writing a frame that nobody owns changes no translation. */
  lemma DataSound(mem: Memory, used: seq<bool>, kpd: nat, dirs: set<nat>, owner: map<nat, Owner>, ready: nat, f: nat, d: Table)
    requires Sound(mem, used, kpd, dirs, owner, ready) && f !in owner
    ensures Sound(mem[f := d], used, kpd, dirs, owner, ready)
  {
    DirsKept(mem, mem[f := d], used, kpd, dirs, owner, ready);
  }

  lemma DataSeen(mem: Memory, used: seq<bool>, kpd: nat, dirs: set<nat>, owner: map<nat, Owner>, ready: nat, f: nat, d: Table,
                 p: nat, v: nat)
    requires Sound(mem, used, kpd, dirs, owner, ready) && f !in owner && p in dirs && v < PAGES
    ensures p in mem[f := d] && Lookup(mem[f := d], p, v) == Lookup(mem, p, v)
  {
    if Present(mem[p][v / ENTRIES]) {
      TableIsNoDirectory(mem, used, kpd, dirs, owner, ready, p, v / ENTRIES);
    }
  }

  lemma DataRefines(mem: Memory, used: seq<bool>, kpd: nat, owner: map<nat, Owner>, ready: nat, view: View, f: nat, d: Table)
    requires Sound(mem, used, kpd, view.Keys, owner, ready) && Refines(mem, view) && f !in owner
    ensures Refines(mem[f := d], view)
  {
    var mem' := mem[f := d];
    forall p, v: nat {:trigger Lookup(mem', p, v)} | p in view && v < PAGES
      ensures p in mem' && Lookup(mem', p, v) == view[p][v]
    {
      DataSeen(mem, used, kpd, view.Keys, owner, ready, f, d, p, v);
      assert Lookup(mem, p, v) == view[p][v];
    }
  }

  /** Allocating and freeing frames that nobody owns keeps the invariant. */
  lemma UsedSound(mem: Memory, used: seq<bool>, used': seq<bool>, kpd: nat, dirs: set<nat>, owner: map<nat, Owner>, ready: nat)
    requires Sound(mem, used, kpd, dirs, owner, ready)
    requires |used'| == |used| && forall f :: f in owner && f < |used| ==> used'[f]
    ensures Sound(mem, used', kpd, dirs, owner, ready)
  {
    forall f | f in owner
      ensures Allocated(used', f)
    {
      assert Allocated(used, f);
    }
  }

  /** Frame `f` is in use and holds no table. */
  ghost predicate Held(used: seq<bool>, owner: map<nat, Owner>, f: nat) {
    f < |used| && used[f] && f !in owner
  }

  /** The frames in use for anything but tables are the same. */
  ghost predicate SameHeld(used: seq<bool>, owner: map<nat, Owner>, used': seq<bool>, owner': map<nat, Owner>) {
    |used'| == |used| && forall f: nat {:trigger Held(used', owner', f)} :: Held(used', owner', f) <==> Held(used, owner, f)
  }

  /** The kernel's own directory and tables are the same. */
  ghost predicate SameKernelTables(owner: map<nat, Owner>, owner': map<nat, Owner>, kpd: nat) {
    forall f: nat {:trigger Owns(owner', kpd, f)} :: Owns(owner', kpd, f) <==> Owns(owner, kpd, f)
  }

  // ---- What the processor lets the user do ----

  /** A page is accessible to the user, or writable, only if directory and table entry both say so. */
  function Effective(mem: Memory, pd: nat, page: nat): Option<Mapping>
    requires pd in mem && page < PAGES
  {
    var pde := mem[pd][page / ENTRIES];
    match Lookup(mem, pd, page)
    case None => None
    case Some(m) => Some(Mapping(m.frame, m.writable && Writable(pde), m.user && User(pde)))
  }

  /** The table of the page was made by a mapping for the user. */
  ghost predicate UserTable(mem: Memory, owner: map<nat, Owner>, pd: nat, page: nat)
    requires pd in mem && page < PAGES
  {
    var f := FrameOf(mem[pd][page / ENTRIES]);
    f in owner && owner[f].TableIn? && owner[f].user
  }

  /** Writing is as the page's entry says; the user gets at it exactly if its entry says so and its table was made for the user. */
  lemma EffectiveExact(mem: Memory, used: seq<bool>, kpd: nat, owner: map<nat, Owner>, ready: nat, view: View, p: nat, v: nat)
    requires Sound(mem, used, kpd, view.Keys, owner, ready) && Refines(mem, view) && p in view && v < PAGES
    ensures Effective(mem, p, v) == match view[p][v]
      case None => None
      case Some(m) => Some(Mapping(m.frame, m.writable, m.user && UserTable(mem, owner, p, v)))
  {
    assert Lookup(mem, p, v) == view[p][v];
    if Present(mem[p][v / ENTRIES]) {
      TableIsNoDirectory(mem, used, kpd, view.Keys, owner, ready, p, v / ENTRIES);
    }
  }

  /** No page of the kernel half is accessible to the user in any space, whatever its own entry says. */
  lemma KernelNotForUser(mem: Memory, used: seq<bool>, kpd: nat, owner: map<nat, Owner>, view: View, p: nat, v: nat)
    requires Sound(mem, used, kpd, view.Keys, owner, ENTRIES) && Refines(mem, view) && p in view && KERNEL_PAGES <= v < PAGES
    ensures Effective(mem, p, v).Some? ==> !Effective(mem, p, v).value.user
  {
    KernelHalfShared(mem, used, kpd, owner, view, p, v);
  }

  // ---- Whole words ----

  /** The word that the walk for `page` ends at. */
  function WordAt(mem: Memory, pd: nat, page: nat): nat
    requires pd in mem && page < PAGES
  {
    match TableOf(mem, pd, page / ENTRIES)
    case None => 0
    case Some(pt) => if pt in mem then mem[pt][page % ENTRIES] else 0
  }

  /** In every space the word of every page is exactly the mapping's, without any other bit; nothing mapped is zero. */
  lemma WordExact(mem: Memory, used: seq<bool>, kpd: nat, owner: map<nat, Owner>, ready: nat, view: View, p: nat, v: nat)
    requires Sound(mem, used, kpd, view.Keys, owner, ready) && Refines(mem, view) && p in view && v < PAGES
    ensures match view[p][v]
      case None => WordAt(mem, p, v) == 0
      case Some(m) => WordAt(mem, p, v) == m.frame * 4096 + 1 + (if m.writable then 2 else 0) + (if m.user then 4 else 0)
  {
    assert Lookup(mem, p, v) == view[p][v];
    if Present(mem[p][v / ENTRIES]) {
      TableIsNoDirectory(mem, used, kpd, view.Keys, owner, ready, p, v / ENTRIES);
      PlainWord(mem[FrameOf(mem[p][v / ENTRIES])], v % ENTRIES);
    }
  }

  lemma PlainWord(t: Table, j: nat)
    requires AllPlain(t) && j < ENTRIES
    ensures if Present(t[j]) then PteIs(t[j], FrameOf(t[j]), Writable(t[j]), User(t[j])) else t[j] == 0
  {
    assert PlainAt(t, j);
    if t[j] != 0 { OddEntry(t[j], FrameOf(t[j])); }
  }

  lemma OddEntry(w: nat, frame: nat)
    requires exists writable, user :: PteIs(w, frame, writable, user)
    ensures Present(w)
  {
    var writable, user :| PteIs(w, frame, writable, user);
    Over2(2048 * frame, 1 + (if writable then 2 else 0) + (if user then 4 else 0));
  }

  /** Every present directory entry is exactly its table's address with present, writable and perhaps user. */
  lemma DirectoryWordExact(mem: Memory, used: seq<bool>, kpd: nat, dirs: set<nat>, owner: map<nat, Owner>, ready: nat, p: nat, i: nat)
    requires Sound(mem, used, kpd, dirs, owner, ready) && p in dirs && i < ENTRIES && Present(mem[p][i])
    ensures mem[p][i] / 4096 in owner && owner[mem[p][i] / 4096].TableIn?
    ensures mem[p][i] == mem[p][i] / 4096 * 4096 + 3 + (if owner[mem[p][i] / 4096].user then 4 else 0)
  {
    TableIsNoDirectory(mem, used, kpd, dirs, owner, ready, p, i);
  }

  // ---- The shared kernel half ----

  /** Every live space sees the kernel's pages exactly as the kernel does, through entries without the user bit. */
  lemma KernelHalfShared(mem: Memory, used: seq<bool>, kpd: nat, owner: map<nat, Owner>, view: View, p: nat, v: nat)
    requires Sound(mem, used, kpd, view.Keys, owner, ENTRIES) && Refines(mem, view) && p in view && KERNEL_PAGES <= v < PAGES
    ensures view[p][v] == view[kpd][v]
    ensures Present(mem[p][v / ENTRIES]) && !User(mem[p][v / ENTRIES])
  {
    assert Lookup(mem, p, v) == view[p][v] && Lookup(mem, kpd, v) == view[kpd][v];
    assert SameSlot(mem, kpd, p, v / ENTRIES);
    assert Present(mem[kpd][v / ENTRIES]);
    assert PdeOk(mem, kpd, owner, p, v / ENTRIES);
  }

  /** Two slots reach the same table only when they are the same slot of the same space, or the same kernel slot. */
  lemma TablesDistinct(mem: Memory, used: seq<bool>, kpd: nat, dirs: set<nat>, owner: map<nat, Owner>, ready: nat,
                       p: nat, i: nat, q: nat, j: nat)
    requires Sound(mem, used, kpd, dirs, owner, ready) && p in dirs && q in dirs && i < ENTRIES && j < ENTRIES
    requires Present(mem[p][i]) && Present(mem[q][j]) && FrameOf(mem[p][i]) == FrameOf(mem[q][j])
    ensures i == j && (p == q || i >= KERNEL_BASE)
    ensures FrameOf(mem[p][i]) !in dirs && Allocated(used, FrameOf(mem[p][i]))
  {
    TableIsNoDirectory(mem, used, kpd, dirs, owner, ready, p, i);
    TableIsNoDirectory(mem, used, kpd, dirs, owner, ready, q, j);
  }
}

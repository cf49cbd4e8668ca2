/** Programs in memory: what it means that a segment is loaded, and what loading others does to it. */
module LoadedPrograms {
  import opened PageTables
  import opened FrameAllocator
  import opened Paging
  import opened VirtualMemory
  import opened PhysicalBytes
  import opened Iwbf

  /** `IWBF_SEG_FLAG_*` to `VM_*`, always with `VM_USER`. */
  function SegmentFlags(flags: nat): Flags {
    Flags(flags % 2 == 1, flags / 2 % 2 == 1, flags / 4 % 2 == 1, true, false)
  }

  /** Descriptor `i` of the image, if it lies inside it and is accepted. */
  function SegmentAt(image: seq<Byte>, i: nat): Option<Segment> {
    var off := HEADER_SIZE + SEGMENT_SIZE * i;
    if off <= |image| then ParseSegment(image[off..]) else None
  }

  /** The segment's file bytes lie inside the image. */
  predicate InImage(image: seq<Byte>, s: Segment) {
    s.fileSize <= s.memSize && s.fileOff + s.fileSize <= |image|
  }

  /** Byte `k` of the segment as the program must see it. */
  function Expected(image: seq<Byte>, s: Segment, k: nat): Byte
    requires InImage(image, s)
  {
    if k < s.fileSize then image[s.fileOff + k] else 0
  }

  ghost predicate Written(mem: Memory, mem': Memory, phys: nat, bytes: seq<Byte>) {
    && mem'.Keys == mem.Keys
    && forall a: nat {:trigger ByteAt(mem', a)} :: a / PAGE in mem ==>
         ByteAt(mem', a) == if phys <= a < phys + |bytes| then bytes[a - phys] else ByteAt(mem, a)
  }

  ghost function Bytes(image: seq<Byte>, s: Segment): seq<Byte>
    requires InImage(image, s)
  {
    seq(s.memSize, k requires 0 <= k => Expected(image, s, k))
  }

  // ---- A segment in place ----

  ghost function AreaOf(s: Segment): Vma { Vma(s.vaddr, s.vaddr + s.memSize, SegmentFlags(s.flags)) }

  /** Whole pages, at least one, inside user space. */
  ghost predicate SegmentFits(s: Segment) {
    s.memSize >= PAGE && s.memSize % PAGE == 0 && s.vaddr % PAGE == 0 && s.vaddr + s.memSize <= USER_END
  }

  ghost predicate Shape(s: Segment, f: nat) {
    SegmentFits(s) && f + s.memSize / PAGE <= 0x3_0000
  }

  /** The segment's pages are mapped to the frames from `f` on, with its permissions. */
  ghost predicate PagesAt(space: Space, s: Segment, f: nat)
    requires Shape(s, f)
  {
    forall v: nat :: s.vaddr / PAGE <= v < s.vaddr / PAGE + s.memSize / PAGE ==>
      space[v] == Some(Mapping(f + (v - s.vaddr / PAGE), SegmentFlags(s.flags).write, true))
  }

  /** Those frames are allocated and hold no table. */
  ghost predicate HoldsFrames(mem: Memory, used: seq<bool>, owner: map<nat, Owner>, f: nat, n: nat) {
    forall g: nat {:trigger FrameHeld(mem, used, owner, g)} :: f <= g < f + n ==> FrameHeld(mem, used, owner, g)
  }

  ghost predicate FrameHeld(mem: Memory, used: seq<bool>, owner: map<nat, Owner>, g: nat) {
    g in mem && Held(used, owner, g)
  }

  /** Those frames contain the segment. */
  ghost predicate BytesAt(mem: Memory, image: seq<Byte>, s: Segment, f: nat)
    requires InImage(image, s)
  {
    forall a: nat {:trigger ByteIs(mem, image, s, f, a)} :: f * PAGE <= a < f * PAGE + s.memSize ==> ByteIs(mem, image, s, f, a)
  }

  ghost predicate ByteIs(mem: Memory, image: seq<Byte>, s: Segment, f: nat, a: nat)
    requires InImage(image, s) && f * PAGE <= a
  {
    a / PAGE in mem && ByteAt(mem, a) == Expected(image, s, a - f * PAGE)
  }

  /** One space of the machine, with the memory it shares with the others. */
  datatype Snap = Snap(mem: Memory, space: Space, used: seq<bool>, owner: map<nat, Owner>, vmas: seq<Vma>)

  ghost predicate Placed(m: Snap, image: seq<Byte>, s: Segment, f: nat) {
    && Shape(s, f) && InImage(image, s)
    && PagesAt(m.space, s, f) && HoldsFrames(m.mem, m.used, m.owner, f, s.memSize / PAGE)
    && BytesAt(m.mem, image, s, f) && AreaOf(s) in m.vmas
  }

  /** Reading the segment's byte `k` through translation gives the program's byte. */
  lemma PlacedReads(m: Snap, image: seq<Byte>, s: Segment, f: nat, k: nat)
    requires Placed(m, image, s, f) && k < s.memSize
    ensures (s.vaddr + k) / PAGE < PAGES && m.space[(s.vaddr + k) / PAGE].Some?
    ensures var frame := m.space[(s.vaddr + k) / PAGE].value.frame;
      frame in m.mem && ByteAt(m.mem, frame * PAGE + (s.vaddr + k) % PAGE) == Expected(image, s, k)
  {
    var v := s.vaddr / PAGE;
    assert (s.vaddr + k) / PAGE == v + k / PAGE && (s.vaddr + k) % PAGE == k % PAGE;
    assert m.space[v + k / PAGE] == Some(Mapping(f + k / PAGE, SegmentFlags(s.flags).write, true));
    var a := f * PAGE + k;
    assert a == (f + k / PAGE) * PAGE + k % PAGE && a / PAGE == f + k / PAGE;
    assert ByteIs(m.mem, image, s, f, a);
  }

  // ---- The whole machine ----

  /** All spaces of the machine. */
  datatype World = World(mem: Memory, view: View, used: seq<bool>, owner: map<nat, Owner>, spaces: map<nat, seq<Vma>>)

  ghost function SnapIn(w: World, p: nat): Snap
    requires p in w.view && p in w.spaces
  {
    Snap(w.mem, w.view[p], w.used, w.owner, w.spaces[p])
  }

  ghost predicate PlacedIn(w: World, p: nat, image: seq<Byte>, s: Segment, f: nat) {
    p in w.view && p in w.spaces && Placed(SnapIn(w, p), image, s, f)
  }

  /** Whatever was loaded anywhere still is. */
  ghost predicate AllStay(w0: World, w1: World) {
    forall p: nat, image: seq<Byte>, s: Segment, f: nat {:trigger PlacedIn(w1, p, image, s, f)} ::
      PlacedIn(w0, p, image, s, f) ==> PlacedIn(w1, p, image, s, f)
  }

  /** Frames in use that hold no table stay so. */
  ghost predicate HeldGrows(used: seq<bool>, owner: map<nat, Owner>, used': seq<bool>, owner': map<nat, Owner>) {
    |used'| == |used| && forall f: nat {:trigger Held(used', owner', f)} :: Held(used, owner, f) ==> Held(used', owner', f)
  }

  /** Every other space, the kernel's included, has the pages and areas it had. */
  ghost predicate Beside(w0: World, w1: World, pd: nat) {
    && w1.view.Keys == w0.view.Keys && w1.spaces.Keys == w0.spaces.Keys
    && (forall p :: p in w0.view && p != pd ==> w1.view[p] == w0.view[p])
    && (forall p :: p in w0.spaces && p != pd ==> w1.spaces[p] == w0.spaces[p])
  }

  lemma BesideTwice(w0: World, w1: World, w2: World, pd: nat)
    requires Beside(w0, w1, pd) && Beside(w1, w2, pd)
    ensures Beside(w0, w2, pd)
  {
    forall p | p in w0.view && p != pd ensures p in w2.view && w2.view[p] == w0.view[p] {
      assert p in w1.view.Keys && p in w2.view.Keys;
    }
    forall p | p in w0.spaces && p != pd ensures p in w2.spaces && w2.spaces[p] == w0.spaces[p] {
      assert p in w1.spaces.Keys && p in w2.spaces.Keys;
    }
  }

  /** The tables of the space were all made for the user. */
  ghost predicate AllUserTables(owner: map<nat, Owner>, pd: nat) {
    forall f {:trigger owner[f]} :: f in owner && owner[f].TableIn? && owner[f].pd == pd ==> owner[f].user
  }

  // ---- Isolation ----

  ghost predicate UserPage(w: World, p: nat, v: nat) {
    p in w.spaces && p in w.view && v < KERNEL_PAGES && w.view[p][v].Some?
  }

  ghost function FrameAt(w: World, p: nat, v: nat): nat
    requires UserPage(w, p, v)
  {
    w.view[p][v].value.frame
  }

  /** Every user page has a frame of its own, in use and no table: not that of another page of any space. */
  ghost predicate Isolated(w: World) {
    && (forall p: nat, v: nat {:trigger UserPage(w, p, v)} :: UserPage(w, p, v) ==> Held(w.used, w.owner, FrameAt(w, p, v)))
    && (forall p: nat, v: nat, q: nat, u: nat {:trigger UserPage(w, p, v), UserPage(w, q, u)} ::
          UserPage(w, p, v) && UserPage(w, q, u) && FrameAt(w, p, v) == FrameAt(w, q, u) ==> p == q && v == u)
  }

  // ---- What mapping one more segment does ----

  /**
   * `vm_map` of the segment to the frames from `g` on: nothing outside the space, tables for the user out of
   * free frames, and the first `done` pages.
   */
  ghost predicate MapsPart(w: World, w1: World, pd: nat, s: Segment, g: nat, done: nat) {
    && pd in w.view && pd in w.spaces && Beside(w, w1, pd) && pd in w1.view && pd in w1.spaces
    && TablesGrown(w.used, w1.used, w.owner, w1.owner, pd) && TablesFor(w.owner, w1.owner, true)
    && DataKept(w.mem, w1.mem, w1.owner) && Ram(w.mem, |w.used|) && Ram(w1.mem, |w1.used|)
    && SpaceChanged(w.view[pd], w1.view[pd], s.vaddr / PAGE, done, ToFrames(g, SegmentFlags(s.flags)))
    && (done > 0 ==> Shape(s, g) && done <= s.memSize / PAGE && !Overlaps(w.spaces[pd], s.vaddr, s.vaddr + s.memSize))
  }

  /** It succeeded: all pages, and the area. */
  ghost predicate MapDone(w: World, w1: World, pd: nat, s: Segment, g: nat, at: nat) {
    && MapsPart(w, w1, pd, s, g, s.memSize / PAGE) && SegmentFits(s)
    && at <= |w.spaces[pd]| && w1.spaces[pd] == InsertAt(w.spaces[pd], at, AreaOf(s))
  }

  /** It failed: the areas are as before. */
  ghost predicate MapFailed(w: World, w1: World, pd: nat, s: Segment, g: nat, done: nat) {
    MapsPart(w, w1, pd, s, g, done) && w1.spaces[pd] == w.spaces[pd] && (done > 0 ==> done < s.memSize / PAGE)
  }

  /** The world with the frames `[g, g + n)` taken, or given back. */
  ghost function WithRun(w: World, g: nat, n: nat, v: bool): World
    requires g + n <= |w.used|
  {
    w.(used := Fill(w.used, g, n, v))
  }

  /** What was in place stays, once its pages, its area, its frames and its bytes do. */
  lemma PlacedThrough(m0: Snap, m1: Snap, mem1: Memory, image: seq<Byte>, s: Segment, f: nat, phys: nat, bytes: seq<Byte>)
    requires Placed(m0, image, s, f) && PagesAt(m1.space, s, f) && AreaOf(s) in m1.vmas
    requires HeldGrows(m0.used, m0.owner, m1.used, m1.owner) && Ram(m1.mem, |m1.used|) && Ram(m0.mem, |m0.used|)
    requires DataKept(m0.mem, mem1, m1.owner) && Written(mem1, m1.mem, phys, bytes)
    requires f * PAGE + s.memSize <= phys || phys + |bytes| <= f * PAGE
    ensures Placed(m1, image, s, f)
  {
    forall g: nat {:trigger FrameHeld(m1.mem, m1.used, m1.owner, g)} | f <= g < f + s.memSize / PAGE
      ensures FrameHeld(m1.mem, m1.used, m1.owner, g)
    {
      assert FrameHeld(m0.mem, m0.used, m0.owner, g) && Held(m1.used, m1.owner, g);
    }
    forall a: nat {:trigger ByteIs(m1.mem, image, s, f, a)} | f * PAGE <= a < f * PAGE + s.memSize
      ensures ByteIs(m1.mem, image, s, f, a)
    {
      assert f <= a / PAGE < f + s.memSize / PAGE;
      assert FrameHeld(m0.mem, m0.used, m0.owner, a / PAGE) && FrameHeld(m1.mem, m1.used, m1.owner, a / PAGE);
      assert SameFrame(m0.mem, mem1, a / PAGE) && a / PAGE in mem1.Keys;
      assert ByteIs(m0.mem, image, s, f, a) && ByteAt(mem1, a) == ByteAt(m0.mem, a);
      assert ByteAt(m1.mem, a) == ByteAt(mem1, a);
    }
  }

  lemma PagesThrough(space: Space, space': Space, vmas: seq<Vma>, s: Segment, f: nat, t: Segment, n: nat, c: Change)
    requires Shape(s, f) && PagesAt(space, s, f) && AreaOf(s) in vmas
    requires SpaceChanged(space, space', t.vaddr / PAGE, n, c)
    requires n > 0 ==> SegmentFits(t) && n <= t.memSize / PAGE && !Overlaps(vmas, t.vaddr, t.vaddr + t.memSize)
    ensures PagesAt(space', s, f)
  {
    var i :| 0 <= i < |vmas| && vmas[i] == AreaOf(s);
    assert n > 0 ==> !(vmas[i].start < t.vaddr + t.memSize && t.vaddr < vmas[i].end);
  }

  /** Held frames and a free run are apart. */
  lemma RunsApart(mem: Memory, used: seq<bool>, owner: map<nat, Owner>, f: nat, n: nat, g: nat, m: nat)
    requires HoldsFrames(mem, used, owner, f, n) && RunFree(used, g, m) && n > 0 && m > 0
    ensures f + n <= g || g + m <= f
  {
    var x := if f < g then g else f;
    assert f <= x < f + n ==> FrameHeld(mem, used, owner, x);
  }

  lemma AreaStays(vmas: seq<Vma>, vmas': seq<Vma>, at: nat, a: Vma, b: Vma)
    requires b in vmas && (vmas' == vmas || (at <= |vmas| && vmas' == InsertAt(vmas, at, a)))
    ensures b in vmas'
  {
    var i :| 0 <= i < |vmas| && vmas[i] == b;
    if vmas' != vmas { assert vmas'[if i < at then i else i + 1] == b; }
  }

  lemma RunHeld(used: seq<bool>, used2: seq<bool>, owner: map<nat, Owner>, owner': map<nat, Owner>, pd: nat, g: nat, n: nat)
    requires RunFree(used, g, n) && TablesGrown(Fill(used, g, n, true), used2, owner, owner', pd)
    requires forall f :: f in owner ==> f < |used| && used[f]
    ensures HeldGrows(used, owner, used2, owner')
    ensures forall f: nat {:trigger Held(used2, owner', f)} :: g <= f < g + n ==> Held(used2, owner', f)
    ensures TablesGrown(used, Fill(used2, g, n, false), owner, owner', pd) && RunUsed(used2, g, n)
    ensures forall f: nat :: g <= f < g + n ==> f !in owner'
  {
  }

  // ---- The segment is loaded ----

  /** Frames `[g, ..)` were taken, the segment was mapped to them, which gave `w1`, and its bytes were written. */
  ghost predicate Loads(w0: World, w1: World, w2: World, pd: nat, image: seq<Byte>, t: Segment, g: nat, at: nat) {
    && SegmentFits(t) && InImage(image, t) && RunFree(w0.used, g, t.memSize / PAGE) && g + t.memSize / PAGE <= 0x3_0000
    && MapDone(WithRun(w0, g, t.memSize / PAGE, true), w1, pd, t, g, at)
    && w2 == w1.(mem := w2.mem) && Written(w1.mem, w2.mem, g * PAGE, Bytes(image, t))
    && forall f :: f in w0.owner ==> f < |w0.used| && w0.used[f]
  }

  /** What is loaded survives: frames taken and tables grown, `n` pages of another segment, bytes written in a free run. */
  lemma StaysAt(w0: World, w2: World, mem1: Memory, pd: nat, t: Segment, n: nat, g: nat, m: nat, at: nat, bytes: seq<Byte>,
                p: nat, image: seq<Byte>, s: Segment, f: nat)
    requires pd in w0.view && pd in w0.spaces && Beside(w0, w2, pd) && pd in w2.view && pd in w2.spaces
    requires HeldGrows(w0.used, w0.owner, w2.used, w2.owner) && Ram(w0.mem, |w0.used|) && Ram(w2.mem, |w2.used|)
    requires DataKept(w0.mem, mem1, w2.owner) && Written(mem1, w2.mem, g * PAGE, bytes)
    requires bytes == [] || (RunFree(w0.used, g, m) && 0 < m && |bytes| <= m * PAGE)
    requires SpaceChanged(w0.view[pd], w2.view[pd], t.vaddr / PAGE, n, ToFrames(g, SegmentFlags(t.flags)))
    requires n > 0 ==> SegmentFits(t) && n <= t.memSize / PAGE && !Overlaps(w0.spaces[pd], t.vaddr, t.vaddr + t.memSize)
    requires w2.spaces[pd] == w0.spaces[pd] || (at <= |w0.spaces[pd]| && w2.spaces[pd] == InsertAt(w0.spaces[pd], at, AreaOf(t)))
    requires PlacedIn(w0, p, image, s, f)
    ensures PlacedIn(w2, p, image, s, f)
  {
    var m0 := SnapIn(w0, p);
    assert p in w2.view.Keys && p in w2.spaces.Keys;
    var m1 := SnapIn(w2, p);
    if p == pd {
      PagesThrough(m0.space, m1.space, m0.vmas, s, f, t, n, ToFrames(g, SegmentFlags(t.flags)));
      AreaStays(m0.vmas, m1.vmas, at, AreaOf(t), AreaOf(s));
    }
    if bytes != [] {
      RunsApart(m0.mem, m0.used, m0.owner, f, s.memSize / PAGE, g, m);
      PlacedThrough(m0, m1, mem1, image, s, f, g * PAGE, bytes);
    } else {
      Unwritten(mem1, w2.mem, g * PAGE, f * PAGE + s.memSize);
      PlacedThrough(m0, m1, mem1, image, s, f, f * PAGE + s.memSize, []);
    }
  }

  lemma Unwritten(mem: Memory, mem': Memory, a: nat, b: nat)
    requires Written(mem, mem', a, [])
    ensures Written(mem, mem', b, [])
  {
  }

  lemma LoadsStay(w0: World, w1: World, w2: World, pd: nat, image: seq<Byte>, t: Segment, g: nat, at: nat)
    requires Loads(w0, w1, w2, pd, image, t, g, at)
    ensures AllStay(w0, w2)
  {
    var n := t.memSize / PAGE;
    RunHeld(w0.used, w2.used, w0.owner, w2.owner, pd, g, n);
    RamKept(w1.mem, w2.mem, |w1.used|, g * PAGE, Bytes(image, t));
    forall p: nat, img: seq<Byte>, s: Segment, f: nat {:trigger PlacedIn(w2, p, img, s, f)} | PlacedIn(w0, p, img, s, f)
      ensures PlacedIn(w2, p, img, s, f)
    {
      StaysAt(w0, w2, w1.mem, pd, t, n, g, n, at, Bytes(image, t), p, img, s, f);
    }
  }

  lemma RamKept(mem: Memory, mem': Memory, frames: nat, phys: nat, bytes: seq<Byte>)
    requires Ram(mem, frames) && Written(mem, mem', phys, bytes)
    ensures Ram(mem', frames)
  {
    forall f: nat {:trigger f in mem'} | f < frames ensures f in mem' {
      assert f in mem.Keys;
    }
  }

  /** The new segment itself is in place. */
  lemma NewPlaced(w0: World, w1: World, w2: World, pd: nat, image: seq<Byte>, t: Segment, g: nat, at: nat)
    requires Loads(w0, w1, w2, pd, image, t, g, at)
    ensures PlacedIn(w2, pd, image, t, g)
  {
    var n := t.memSize / PAGE;
    RunHeld(w0.used, w2.used, w0.owner, w2.owner, pd, g, n);
    RamKept(w1.mem, w2.mem, |w1.used|, g * PAGE, Bytes(image, t));
    forall h: nat {:trigger FrameHeld(w2.mem, w2.used, w2.owner, h)} | g <= h < g + n
      ensures FrameHeld(w2.mem, w2.used, w2.owner, h)
    {
      assert Held(w2.used, w2.owner, h);
    }
    forall a: nat {:trigger ByteIs(w2.mem, image, t, g, a)} | g * PAGE <= a < g * PAGE + t.memSize
      ensures ByteIs(w2.mem, image, t, g, a)
    {
      assert g <= a / PAGE < g + n;
      assert FrameHeld(w2.mem, w2.used, w2.owner, a / PAGE);
      assert a / PAGE in w1.mem.Keys;
    }
    assert w2.spaces[pd][at] == AreaOf(t);
  }

  /** Loading takes fresh frames, so no page gets another's. */
  lemma LoadsIsolated(w0: World, w1: World, w2: World, pd: nat, image: seq<Byte>, t: Segment, g: nat, at: nat)
    requires Loads(w0, w1, w2, pd, image, t, g, at) && Isolated(w0)
    ensures Isolated(w2)
  {
    var n, first := t.memSize / PAGE, t.vaddr / PAGE;
    RunHeld(w0.used, w2.used, w0.owner, w2.owner, pd, g, n);
    forall p: nat, v: nat {:trigger UserPage(w2, p, v)} | UserPage(w2, p, v)
      ensures Held(w2.used, w2.owner, FrameAt(w2, p, v))
      ensures if p == pd && first <= v < first + n then FrameAt(w2, p, v) == g + (v - first)
        else UserPage(w0, p, v) && FrameAt(w2, p, v) == FrameAt(w0, p, v)
    {
      PageFrom(w0, w2, pd, t, g, n, p, v);
      if !(p == pd && first <= v < first + n) { assert Held(w0.used, w0.owner, FrameAt(w0, p, v)); }
    }
    forall p: nat, v: nat, q: nat, u: nat {:trigger UserPage(w2, p, v), UserPage(w2, q, u)}
      | UserPage(w2, p, v) && UserPage(w2, q, u) && FrameAt(w2, p, v) == FrameAt(w2, q, u)
      ensures p == q && v == u
    {
      PageFrom(w0, w2, pd, t, g, n, p, v);
      PageFrom(w0, w2, pd, t, g, n, q, u);
      if !(p == pd && first <= v < first + n) { assert Held(w0.used, w0.owner, FrameAt(w0, p, v)); }
      if !(q == pd && first <= u < first + n) { assert Held(w0.used, w0.owner, FrameAt(w0, q, u)); }
    }
  }

  /** Where a user page comes from: the segment, or the space as it was. */
  lemma PageFrom(w0: World, w2: World, pd: nat, t: Segment, g: nat, n: nat, p: nat, v: nat)
    requires pd in w0.view && pd in w0.spaces && Beside(w0, w2, pd) && pd in w2.view && UserPage(w2, p, v)
    requires SpaceChanged(w0.view[pd], w2.view[pd], t.vaddr / PAGE, n, ToFrames(g, SegmentFlags(t.flags)))
    requires n > 0 ==> g + n <= 0x3_0000
    ensures if p == pd && t.vaddr / PAGE <= v < t.vaddr / PAGE + n then FrameAt(w2, p, v) == g + (v - t.vaddr / PAGE) && w2.view[p][v].value.user
      else UserPage(w0, p, v) && w2.view[p][v] == w0.view[p][v]
  {
    assert p in w0.view.Keys && p in w0.spaces.Keys;
  }

  // ---- The segment could not be loaded ----

  /**
   * What a failure leaves: areas, other spaces and data as before, all data frames given back, tables that grew,
   * and the first `done` pages still mapped to the frames from `g` on, which are free again.
   */
  ghost predicate Undone(w0: World, w2: World, pd: nat, t: Segment, g: nat, done: nat) {
    && pd in w0.view && pd in w0.spaces && Beside(w0, w2, pd) && pd in w2.view && pd in w2.spaces
    && w2.spaces[pd] == w0.spaces[pd] && TablesGrown(w0.used, w2.used, w0.owner, w2.owner, pd)
    && TablesFor(w0.owner, w2.owner, true) && DataKept(w0.mem, w2.mem, w2.owner)
    && Ram(w0.mem, |w0.used|) && Ram(w2.mem, |w2.used|)
    && SpaceChanged(w0.view[pd], w2.view[pd], t.vaddr / PAGE, done, ToFrames(g, SegmentFlags(t.flags)))
    && (done > 0 ==> Shape(t, g) && done < t.memSize / PAGE && !Overlaps(w0.spaces[pd], t.vaddr, t.vaddr + t.memSize))
    && (done > 0 ==> RunFree(w2.used, g, t.memSize / PAGE))
  }

  lemma UndoneFrom(w0: World, w1: World, w2: World, pd: nat, t: Segment, g: nat, done: nat)
    requires RunFree(w0.used, g, t.memSize / PAGE) && MapFailed(WithRun(w0, g, t.memSize / PAGE, true), w1, pd, t, g, done)
    requires g + t.memSize / PAGE <= |w1.used| && w2 == WithRun(w1, g, t.memSize / PAGE, false)
    requires forall f :: f in w0.owner ==> f < |w0.used| && w0.used[f]
    ensures Undone(w0, w2, pd, t, g, done)
  {
    RunHeld(w0.used, w1.used, w0.owner, w1.owner, pd, g, t.memSize / PAGE);
  }

  /** A failed load, too, leaves everything that was loaded in place. */
  lemma UndoneStays(w0: World, w2: World, pd: nat, kpd: nat, t: Segment, g: nat, done: nat)
    requires Undone(w0, w2, pd, t, g, done) && pd != kpd
    ensures AllStay(w0, w2)
  {
    GrownHeld(w0.used, w2.used, w0.owner, w2.owner, pd, kpd);
    forall p: nat, img: seq<Byte>, s: Segment, f: nat {:trigger PlacedIn(w2, p, img, s, f)} | PlacedIn(w0, p, img, s, f)
      ensures PlacedIn(w2, p, img, s, f)
    {
      StaysAt(w0, w2, w2.mem, pd, t, done, g, 0, 0, [], p, img, s, f);
    }
  }

  /** A failed load keeps every page on a frame of its own exactly if it had mapped none. */
  lemma UndoneIsolated(w0: World, w2: World, pd: nat, kpd: nat, t: Segment, g: nat, done: nat)
    requires Undone(w0, w2, pd, t, g, done) && Isolated(w0) && pd != kpd
    ensures Isolated(w2) <==> done == 0
  {
    GrownHeld(w0.used, w2.used, w0.owner, w2.owner, pd, kpd);
    if done > 0 {
      var v := t.vaddr / PAGE;
      assert UserPage(w2, pd, v) && FrameAt(w2, pd, v) == g;
      assert !Held(w2.used, w2.owner, g);
    } else {
      forall p: nat, v: nat {:trigger UserPage(w2, p, v)} | UserPage(w2, p, v)
        ensures UserPage(w0, p, v) && FrameAt(w2, p, v) == FrameAt(w0, p, v) && Held(w2.used, w2.owner, FrameAt(w2, p, v))
      {
        PageFrom(w0, w2, pd, t, g, 0, p, v);
        assert Held(w0.used, w0.owner, FrameAt(w0, p, v));
      }
    }
  }

  // ---- From one segment to the next ----

  /** What loading into `pd` keeps: other spaces, frames held, the kernel's tables, everything loaded; new tables are for the user. */
  ghost predicate Since(w0: World, w1: World, pd: nat, kpd: nat) {
    && Beside(w0, w1, pd) && HeldGrows(w0.used, w0.owner, w1.used, w1.owner) && SameKernelTables(w0.owner, w1.owner, kpd)
    && AllStay(w0, w1) && MoreForUser(w0.owner, w1.owner) && OwnersStay(w0.owner, w1.owner)
    && FreshPages(w0, w1)
  }

  /** A user page is as it was, or it is new, for the user, and on a frame that was not in use for anything but a table. */
  ghost predicate FreshPages(w0: World, w1: World) {
    forall p: nat, v: nat {:trigger UserPage(w1, p, v)} :: UserPage(w1, p, v) ==> FreshPage(w0, w1, p, v)
  }

  ghost predicate FreshPage(w0: World, w1: World, p: nat, v: nat)
    requires UserPage(w1, p, v)
  {
    || (UserPage(w0, p, v) && w1.view[p][v] == w0.view[p][v])
    || (!Held(w0.used, w0.owner, FrameAt(w1, p, v)) && w1.view[p][v].value.user)
  }

  lemma FreshPagesFrom(w0: World, w2: World, pd: nat, t: Segment, g: nat, n: nat)
    requires pd in w0.view && pd in w0.spaces && Beside(w0, w2, pd) && pd in w2.view
    requires SpaceChanged(w0.view[pd], w2.view[pd], t.vaddr / PAGE, n, ToFrames(g, SegmentFlags(t.flags)))
    requires n > 0 ==> g + n <= 0x3_0000 && RunFree(w0.used, g, n)
    ensures FreshPages(w0, w2)
  {
    forall p: nat, v: nat {:trigger UserPage(w2, p, v)} | UserPage(w2, p, v) ensures FreshPage(w0, w2, p, v) {
      PageFrom(w0, w2, pd, t, g, n, p, v);
    }
  }

  lemma FreshPagesTwice(w0: World, w1: World, w2: World)
    requires FreshPages(w0, w1) && FreshPages(w1, w2) && HeldGrows(w0.used, w0.owner, w1.used, w1.owner)
    ensures FreshPages(w0, w2)
  {
    forall p: nat, v: nat {:trigger UserPage(w2, p, v)} | UserPage(w2, p, v) ensures FreshPage(w0, w2, p, v) {
      assert FreshPage(w1, w2, p, v);
      if UserPage(w1, p, v) && w2.view[p][v] == w1.view[p][v] {
        assert FreshPage(w0, w1, p, v);
      } else {
        assert !Held(w1.used, w1.owner, FrameAt(w2, p, v));
      }
    }
  }

  ghost predicate OwnersStay(owner: map<nat, Owner>, owner': map<nat, Owner>) {
    forall f :: f in owner ==> f in owner' && owner'[f] == owner[f]
  }

  lemma SinceNothing(w: World, pd: nat, kpd: nat)
    ensures Since(w, w, pd, kpd)
  {
  }

  lemma SinceTwice(w0: World, w1: World, w2: World, pd: nat, kpd: nat)
    requires Since(w0, w1, pd, kpd) && Since(w1, w2, pd, kpd)
    ensures Since(w0, w2, pd, kpd)
  {
    BesideTwice(w0, w1, w2, pd);
    FreshPagesTwice(w0, w1, w2);
    forall f: nat {:trigger Held(w2.used, w2.owner, f)} | Held(w0.used, w0.owner, f) ensures Held(w2.used, w2.owner, f) {
      assert Held(w1.used, w1.owner, f);
    }
    forall p: nat, img: seq<Byte>, s: Segment, f: nat {:trigger PlacedIn(w2, p, img, s, f)} | PlacedIn(w0, p, img, s, f)
      ensures PlacedIn(w2, p, img, s, f)
    {
      assert PlacedIn(w1, p, img, s, f);
    }
    forall f: nat {:trigger Owns(w2.owner, kpd, f)} ensures Owns(w2.owner, kpd, f) <==> Owns(w0.owner, kpd, f) {
      assert Owns(w1.owner, kpd, f) <==> Owns(w0.owner, kpd, f);
    }
  }

  lemma UserTablesGrow(used: seq<bool>, used': seq<bool>, owner: map<nat, Owner>, owner': map<nat, Owner>, pd: nat)
    requires TablesGrown(used, used', owner, owner', pd) && TablesFor(owner, owner', true)
    ensures MoreForUser(owner, owner')
  {
  }

  lemma UserTablesKept(owner: map<nat, Owner>, owner': map<nat, Owner>, p: nat)
    requires MoreForUser(owner, owner') && AllUserTables(owner, p)
    ensures AllUserTables(owner', p)
  {
  }

  lemma LoadsSince(w0: World, w1: World, w2: World, pd: nat, kpd: nat, image: seq<Byte>, t: Segment, g: nat, at: nat)
    requires Loads(w0, w1, w2, pd, image, t, g, at) && pd != kpd
    ensures Since(w0, w2, pd, kpd)
  {
    var n := t.memSize / PAGE;
    LoadsStay(w0, w1, w2, pd, image, t, g, at);
    RunHeld(w0.used, w2.used, w0.owner, w2.owner, pd, g, n);
    GrownHeld(Fill(w0.used, g, n, true), w2.used, w0.owner, w2.owner, pd, kpd);
    UserTablesGrow(Fill(w0.used, g, n, true), w2.used, w0.owner, w2.owner, pd);
    FreshPagesFrom(w0, w2, pd, t, g, n);
  }

  lemma UndoneSince(w0: World, w2: World, pd: nat, kpd: nat, t: Segment, g: nat, done: nat)
    requires Undone(w0, w2, pd, t, g, done) && pd != kpd
    ensures Since(w0, w2, pd, kpd)
  {
    UndoneStays(w0, w2, pd, kpd, t, g, done);
    GrownHeld(w0.used, w2.used, w0.owner, w2.owner, pd, kpd);
    UserTablesGrow(w0.used, w2.used, w0.owner, w2.owner, pd);
    RunWasFree(w0.used, w2.used, w0.owner, w2.owner, pd, g, if done > 0 then t.memSize / PAGE else 0);
    FreshPagesFrom(w0, w2, pd, t, g, done);
  }

  lemma RunWasFree(used: seq<bool>, used': seq<bool>, owner: map<nat, Owner>, owner': map<nat, Owner>, pd: nat, g: nat, n: nat)
    requires TablesGrown(used, used', owner, owner', pd) && (n > 0 ==> RunFree(used', g, n))
    ensures n > 0 ==> RunFree(used, g, n)
  {
  }

  // ---- When a failure leaves pages behind ----

  /** The first page of the segment gets mapped: no argument is bad, no area is in the way, and there is a table or a frame for it. */
  ghost predicate Starts(w: World, pd: nat, s: Segment, haveNode: bool) {
    && SegmentFits(s) && pd in w.spaces && !Overlaps(w.spaces[pd], s.vaddr, s.vaddr + s.memSize) && haveNode
    && FirstMaps(w.view, w.mem, w.used, pd, s.vaddr)
  }

  /** The data frames can be had, and with them taken the first page can be mapped. */
  ghost predicate LeavesPages(w: World, pd: nat, s: Segment, haveNode: bool, g: nat) {
    && s.memSize / PAGE > 0 && FirstRun(w.used, 0, LowEnd(|w.used|), s.memSize / PAGE, g)
    && Starts(WithRun(w, g, s.memSize / PAGE, true), pd, s, haveNode)
  }
}

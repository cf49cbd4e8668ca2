/**
 * The boundary-tag allocator of `kernel/mm/kheap.c`, over raw memory.
 *
 * Each block has a 16-byte header (size, flags, two free-list links) and a 4-byte footer
 * (size); the free blocks are threaded on a circular list whose sentinel lies outside the
 * heap.  The abstract heap of `HeapBlocks`, the tags in memory and the list in memory
 * agree after every operation.
 */
module KernelHeap {
  import opened IntrusiveList
  import opened HeapBlocks

  datatype Error = InvalidArgument | OutOfMemory
  datatype Allocation = Allocated(ptr: int) | AllocFailed(error: Error)
  datatype Status = Done | Refused(error: Error)

  // ---- The flags word ----

  function SetAlloc(flags: int): int { if flags % 2 == 0 then flags + 1 else flags }
  function ClearAlloc(flags: int): int { flags - flags % 2 }
  predicate IsAlloc(flags: int) { flags % 2 == 1 }

  // ---- The representation invariant ----

  /** The heap is inside the direct map and the sentinel is outside the heap. */
  ghost predicate Layout(start: int, end: int, head: int) {
    && 0xC000_0000 <= start && start + MIN_BLOCK <= end <= 0xF000_0000
    && start % 4 == 0 && end % 4 == 0
    && 0 < head && (head + 8 <= start || end <= head)
  }

  ghost predicate Backed(w: Words, start: int, end: int) {
    forall a {:trigger WordAddr(a)} :: start <= a < end && WordAddr(a) ==> a in w
  }

  /** Header and footer of block `a` say what the abstract block says. */
  ghost predicate Tagged(w: Words, b: Blocks, a: int)
    requires a in b
  {
    && a in w && a + 4 in w && a + b[a].size - 4 in w
    && w[a] == b[a].size
    && IsAlloc(w[a + 4]) == b[a].used
    && w[a + b[a].size - 4] == b[a].size
  }

  ghost predicate Tags(w: Words, b: Blocks) {
    forall a {:trigger Tagged(w, b, a)} :: a in b ==> Tagged(w, b, a)
  }

  /** Every node but the sentinel is in the header of a block. */
  ghost predicate Sited(b: Blocks, head: int, nodes: seq<int>) {
    forall i :: 0 <= i < |nodes| ==> nodes[i] == head || nodes[i] - 8 in b
  }

  ghost predicate OnList(ring: seq<int>, a: int) {
    exists k :: At(ring, k, a)
  }

  /** The node of block `a` is at position `k` of the ring. */
  ghost predicate At(ring: seq<int>, k: int, a: int) {
    1 <= k < |ring| && ring[k] == a + 8
  }

  /** The list holds the free blocks other than `skip`, and nothing else. */
  ghost predicate Listed(b: Blocks, head: int, ring: seq<int>, skip: set<int>) {
    && |ring| >= 1 && ring[0] == head
    && (forall i :: 1 <= i < |ring| ==> Free(b, ring[i] - 8) && ring[i] - 8 !in skip)
    && (forall a {:trigger OnList(ring, a)} :: Free(b, a) && a !in skip ==> OnList(ring, a))
  }

  /** The invariant inside an operation: some free blocks may be off the list. */
  ghost predicate Loose(w: Words, start: int, end: int, head: int, b: Blocks, ring: seq<int>, skip: set<int>) {
    && Layout(start, end, head) && Backed(w, start, end)
    && Tiled(b, start, end) && Aligned(b)
    && Tags(w, b) && Ring(w, ring) && Listed(b, head, ring, skip)
  }

  ghost predicate HeapInv(w: Words, start: int, end: int, head: int, b: Blocks, ring: seq<int>) {
    Loose(w, start, end, head, b, ring, {}) && Coalesced(b)
  }

  /** No byte of a live payload changes. */
  ghost predicate PayloadsKept(w: Words, w': Words, b: Blocks) {
    && w'.Keys == w.Keys
    && forall a, u {:trigger Payload(b, a, u)} :: Payload(b, a, u) && u in w ==> w'[u] == w[u]
  }

  // ---- Framing lemmas ----

  /** Relinking nodes that sit in block headers disturbs neither tags nor payloads. */
  lemma LinksKeepTags(w: Words, w': Words, start: int, end: int, head: int, b: Blocks, nodes: seq<int>)
    requires Layout(start, end, head) && Shaped(b, start, end) && Tags(w, b)
    requires SameButLinks(w, w', nodes) && Sited(b, head, nodes)
    ensures Tags(w', b)
  {
    forall a | a in b
      ensures Tagged(w', b, a)
    {
      assert Tagged(w, b, a);
    }
  }

  lemma LinksKeepPayloads(w: Words, w': Words, start: int, end: int, head: int, b: Blocks, nodes: seq<int>)
    requires Layout(start, end, head) && Shaped(b, start, end)
    requires SameButLinks(w, w', nodes) && Sited(b, head, nodes)
    ensures PayloadsKept(w, w', b)
  {
  }

  ghost predicate SameAt(w: Words, w': Words, a: int) {
    a in w && a in w' && w'[a] == w[a]
  }

  // ---- The steps of the two operations ----

  lemma UnlinkListed(b: Blocks, head: int, ring: seq<int>, skip: set<int>, k: nat)
    requires Listed(b, head, ring, skip) && Apart(ring) && 1 <= k < |ring|
    ensures Listed(b, head, Without(ring, k), skip + {ring[k] - 8})
  {
    var r' := Without(ring, k);
    forall i | 1 <= i < |r'|
      ensures Free(b, r'[i] - 8) && r'[i] - 8 !in skip + {ring[k] - 8}
    {
      var j := if i < k then i else i + 1;
      assert r'[i] == ring[j];
      assert !Overlap(ring[if i < k then i else k], ring[if i < k then k else j]);
    }
    forall a {:trigger OnList(r', a)} | Free(b, a) && a !in skip + {ring[k] - 8}
      ensures OnList(r', a)
    {
      assert OnList(ring, a);
      var j :| At(ring, j, a);
      assert At(r', if j < k then j else j - 1, a);
    }
  }

  lemma LinkListed(b: Blocks, head: int, ring: seq<int>, skip: set<int>, a: int)
    requires Listed(b, head, ring, skip) && Free(b, a) && a in skip
    ensures Listed(b, head, Insert(ring, 1, a + 8), skip - {a})
  {
    var r' := Insert(ring, 1, a + 8);
    assert At(r', 1, a);
    forall i | 1 <= i < |r'|
      ensures Free(b, r'[i] - 8) && r'[i] - 8 !in skip - {a}
    {
      if i > 1 { assert r'[i] == ring[i - 1]; }
    }
    forall x {:trigger OnList(r', x)} | Free(b, x) && x !in skip - {a}
      ensures OnList(r', x)
    {
      if x != a {
        assert OnList(ring, x);
        var j :| At(ring, j, x);
        assert At(r', j + 1, x);
      }
    }
  }

  /** A change of the blocks that keeps exactly the listed free blocks. */
  lemma RelistBlocks(b: Blocks, c: Blocks, head: int, ring: seq<int>, skip: set<int>, skip': set<int>)
    requires Listed(b, head, ring, skip)
    requires forall x :: (Free(c, x) && x !in skip') <==> (Free(b, x) && x !in skip)
    ensures Listed(c, head, ring, skip')
  {
    forall x {:trigger OnList(ring, x)} | Free(c, x) && x !in skip'
      ensures OnList(ring, x)
    {
      assert Free(b, x);
    }
  }

  /** Stores to words that are not links of listed nodes keep the list. */
  lemma StoresKeepRing(w: Words, w': Words, ring: seq<int>)
    requires Ring(w, ring) && w'.Keys == w.Keys
    requires forall i :: 0 <= i < |ring| ==> SameAt(w, w', ring[i]) && SameAt(w, w', ring[i] + 4)
    ensures Ring(w', ring)
  {
    forall i | 0 <= i < |ring|
      ensures Linked(w', ring, i)
    {
      assert Linked(w, ring, i);
    }
  }

  /** Clearing the flag of a live block. */
  lemma ClearStep(w: Words, start: int, end: int, head: int, b: Blocks, ring: seq<int>, a: int)
    requires HeapInv(w, start, end, head, b, ring) && Live(b, a) && a + 4 in w
    ensures var w' := w[a + 4 := ClearAlloc(w[a + 4])];
      && Loose(w', start, end, head, MarkFree(b, a), ring, {a})
      && PayloadsKept(w, w', MarkFree(b, a))
  {
    var w', c := w[a + 4 := ClearAlloc(w[a + 4])], MarkFree(b, a);
    FreedTiled(b, start, end, a);
    forall x | x in b
      ensures Tagged(w', c, x)
    {
      assert Tagged(w, b, x);
    }
    TagsOffRing(w, start, end, head, b, ring, {}, a);
    StoresKeepRing(w, w', ring);
    RelistBlocks(b, c, head, ring, {}, {a});
  }

  /** The tags of any block are not links of any node of the list. */
  lemma TagsOffRing(w: Words, start: int, end: int, head: int, b: Blocks, ring: seq<int>, skip: set<int>, a: int)
    requires Layout(start, end, head) && Shaped(b, start, end) && Ring(w, ring) && Listed(b, head, ring, skip)
    requires a in b
    ensures forall i :: 0 <= i < |ring| ==>
      && ring[i] in w && ring[i] + 4 in w
      && !LinkOf(ring[i], a) && !LinkOf(ring[i], a + 4) && !LinkOf(ring[i], a + b[a].size - 4)
  {
    forall i | 0 <= i < |ring|
      ensures ring[i] in w && ring[i] + 4 in w
      ensures !LinkOf(ring[i], a) && !LinkOf(ring[i], a + 4) && !LinkOf(ring[i], a + b[a].size - 4)
    {
      assert Linked(w, ring, i);
      if i > 0 { assert Free(b, ring[i] - 8); }
    }
  }

  lemma MergeTags(w: Words, start: int, end: int, b: Blocks, l: int, r: int)
    requires Shaped(b, start, end) && Tags(w, b)
    requires Free(b, l) && Free(b, r) && Precedes(b, l, r)
    ensures var size := b[l].size + b[r].size;
      Tags(w[l := size][r + b[r].size - 4 := size], Join(b, l, r))
  {
    var size := b[l].size + b[r].size;
    var w', c := w[l := size][r + b[r].size - 4 := size], Join(b, l, r);
    forall x | x in c
      ensures Tagged(w', c, x)
    {
      assert Tagged(w, b, x) && Tagged(w, b, r);
    }
  }

  lemma MergePayloads(w: Words, start: int, end: int, b: Blocks, l: int, r: int)
    requires Shaped(b, start, end) && Tags(w, b)
    requires Free(b, l) && Free(b, r) && Precedes(b, l, r)
    ensures var size := b[l].size + b[r].size;
      PayloadsKept(w, w[l := size][r + b[r].size - 4 := size], b)
  {
    assert Tagged(w, b, l) && Tagged(w, b, r);
  }

  lemma MergeRing(w: Words, start: int, end: int, head: int, b: Blocks, ring: seq<int>, skip: set<int>, l: int, r: int)
    requires Layout(start, end, head) && Shaped(b, start, end) && Tags(w, b)
    requires Ring(w, ring) && Listed(b, head, ring, skip)
    requires Free(b, l) && Free(b, r) && Precedes(b, l, r)
    ensures var size := b[l].size + b[r].size; Ring(w[l := size][r + b[r].size - 4 := size], ring)
  {
    assert Tagged(w, b, l) && Tagged(w, b, r);
    TagsOffRing(w, start, end, head, b, ring, skip, l);
    TagsOffRing(w, start, end, head, b, ring, skip, r);
    var size := b[l].size + b[r].size;
    StoresKeepRing(w, w[l := size][r + b[r].size - 4 := size], ring);
  }

  /** `kheap_merge`: the right block, which is off the list, is absorbed by the left one. */
  lemma MergeStep(w: Words, start: int, end: int, head: int, b: Blocks, ring: seq<int>, skip: set<int>, l: int, r: int)
    requires Loose(w, start, end, head, b, ring, skip)
    requires Free(b, l) && Free(b, r) && Precedes(b, l, r) && r in skip
    ensures var size := b[l].size + b[r].size; var w' := w[l := size][r + b[r].size - 4 := size];
      && l in w && r + b[r].size - 4 in w
      && Loose(w', start, end, head, Join(b, l, r), ring, skip - {r})
      && PayloadsKept(w, w', b)
  {
    assert Tagged(w, b, l) && Tagged(w, b, r);
    var size := b[l].size + b[r].size;
    var w' := w[l := size][r + b[r].size - 4 := size];
    JoinTiled(b, start, end, l, r);
    JoinAligned(b, l, r);
    MergeTags(w, start, end, b, l, r);
    MergePayloads(w, start, end, b, l, r);
    MergeRing(w, start, end, head, b, ring, skip, l, r);
    RelistBlocks(b, Join(b, l, r), head, ring, skip, skip - {r});
  }

  /** Taking a free block off the list. */
  lemma UnlinkStep(w: Words, w': Words, start: int, end: int, head: int, b: Blocks, ring: seq<int>, skip: set<int>, k: nat)
    requires Loose(w, start, end, head, b, ring, skip) && 1 <= k < |ring|
    requires Ring(w', Without(ring, k)) && SameButLinks(w, w', ring)
    ensures Loose(w', start, end, head, b, Without(ring, k), skip + {ring[k] - 8})
    ensures PayloadsKept(w, w', b)
  {
    LinksKeepTags(w, w', start, end, head, b, ring);
    LinksKeepPayloads(w, w', start, end, head, b, ring);
    UnlinkListed(b, head, ring, skip, k);
  }

  /** Putting a skipped free block at the front of the list. */
  lemma LinkStep(w: Words, w': Words, start: int, end: int, head: int, b: Blocks, ring: seq<int>, skip: set<int>, a: int)
    requires Loose(w, start, end, head, b, ring, skip) && Free(b, a) && a in skip
    requires Ring(w', Insert(ring, 1, a + 8)) && SameButLinks(w, w', Insert(ring, 1, a + 8))
    ensures Loose(w', start, end, head, b, Insert(ring, 1, a + 8), skip - {a})
    ensures PayloadsKept(w, w', b)
  {
    var r' := Insert(ring, 1, a + 8);
    LinkListed(b, head, ring, skip, a);
    assert Sited(b, head, r');
    LinksKeepTags(w, w', start, end, head, b, r');
    LinksKeepPayloads(w, w', start, end, head, b, r');
  }

  /** Setting the flag of a free block that is off the list. */
  lemma SetStep(w: Words, start: int, end: int, head: int, b: Blocks, ring: seq<int>, a: int)
    requires Loose(w, start, end, head, b, ring, {a}) && Free(b, a) && a + 4 in w
    ensures var w', c := w[a + 4 := SetAlloc(w[a + 4])], b[a := Block(b[a].size, true)];
      Tags(w', c) && Ring(w', ring) && Listed(c, head, ring, {}) && PayloadsKept(w, w', b)
  {
    var w', c := w[a + 4 := SetAlloc(w[a + 4])], b[a := Block(b[a].size, true)];
    forall x | x in b
      ensures Tagged(w', c, x)
    {
      assert Tagged(w, b, x);
    }
    TagsOffRing(w, start, end, head, b, ring, {a}, a);
    StoresKeepRing(w, w', ring);
    RelistBlocks(b, c, head, ring, {a}, {});
  }

  /** The node of a block that is off the list exists and overlaps no node of the list. */
  lemma FreshNode(w: Words, start: int, end: int, head: int, b: Blocks, ring: seq<int>, skip: set<int>, a: int)
    requires Loose(w, start, end, head, b, ring, skip) && Free(b, a) && a in skip
    ensures a + 8 in w && a + 12 in w
    ensures forall i :: 0 <= i < |ring| ==> !Overlap(ring[i], a + 8)
  {
    assert WordAddr(a) && WordAddr(a + 8) && WordAddr(a + 12);
    forall i | 0 <= i < |ring|
      ensures !Overlap(ring[i], a + 8)
    {
      if i > 0 { assert Free(b, ring[i] - 8); }
    }
  }

  /** What releasing `a` does to the list: a free successor leaves it; `a` is put in front unless its predecessor absorbs it. */
  ghost predicate Relisted(b: Blocks, ring: seq<int>, ring': seq<int>, a: int)
    requires a in b
  {
    exists mid ::
      && |mid| >= 1 && LeftList(b, ring, mid, Succ(b, a))
      && ring' == if MergeHead(b, a) == a then Insert(mid, 1, a + 8) else mid
  }

  /** The block is freed and merged, the list follows, and all other payloads keep their words. */
  ghost predicate Released(w: Words, w': Words, b: Blocks, b': Blocks, ring: seq<int>, ring': seq<int>, a: int) {
    && a in b && (forall x :: x in b ==> b[x].size > 0)
    && b' == Release(b, a) && Relisted(b, ring, ring', a) && PayloadsKept(w, w', MarkFree(b, a))
  }

  /** Without a free block before it, the released block is the first on the list. */
  lemma InFront(b: Blocks, start: int, end: int, head: int, ring: seq<int>, ring': seq<int>, a: int)
    requires Tiled(b, start, end) && a in b && |ring| > 0 && ring[0] == head && Relisted(b, ring, ring', a)
    ensures (forall p :: p in b && p + b[p].size == a ==> b[p].used) ==> |ring'| > 1 && ring'[0] == head && ring'[1] == a + 8
  {
    MergeHeadIs(b, start, end, a);
    if forall p :: p in b && p + b[p].size == a ==> b[p].used {
      assert forall p :: !FreePred(b, p, a);
      var mid :| |mid| >= 1 && LeftList(b, ring, mid, Succ(b, a)) && ring' == if MergeHead(b, a) == a then Insert(mid, 1, a + 8) else mid;
    }
  }

  ghost predicate LeftList(b: Blocks, ring: seq<int>, ring': seq<int>, s: int) {
    if Free(b, s) then exists k :: At(ring, k, s) && ring' == Without(ring, k) else ring' == ring
  }

  /** Once the block before is joined, the block after completes the release. */
  lemma JoinedPrev(b: Blocks, start: int, end: int, a: int, prevFree: bool, prev: int, nextFree: bool)
    requires Tiled(b, start, end) && Coalesced(b) && Live(b, a) && (nextFree <==> Free(MarkFree(b, a), Succ(MarkFree(b, a), a)))
    requires prevFree ==> FreePred(MarkFree(b, a), prev, a)
    requires !prevFree ==> forall p :: !FreePred(MarkFree(b, a), p, a)
    ensures var h, s := if prevFree then prev else a, Succ(b, a);
      var b1 := if prevFree then Join(MarkFree(b, a), prev, a) else MarkFree(b, a);
      && h == MergeHead(b, a) && Free(b1, h) && Succ(MarkFree(b, a), a) == s && (nextFree <==> Free(b, s))
      && (nextFree ==> Free(b1, s) && Precedes(b1, h, s) && s != h && s != a)
      && Release(b, a) == (if nextFree then Join(b1, h, s) else b1)
      && (forall x :: Live(MarkFree(b, a), x) ==> x in b1 && b1[x] == MarkFree(b, a)[x])
      && (forall x :: Live(MarkFree(b, a), x) ==> x in Release(b, a) && Release(b, a)[x] == MarkFree(b, a)[x])
      && (prevFree ==> Free(MarkFree(b, a), prev) && Precedes(MarkFree(b, a), prev, a))
  {
    HeadIs(b, start, end, a, prevFree, prev);
    ReleaseCoalesced(b, start, end, a);
    assert b[a].size > 0 && (prevFree ==> b[prev].size > 0);
  }

  lemma HeadIs(b: Blocks, start: int, end: int, a: int, prevFree: bool, prev: int)
    requires Tiled(b, start, end) && Live(b, a)
    requires prevFree ==> FreePred(MarkFree(b, a), prev, a)
    requires !prevFree ==> forall p :: !FreePred(MarkFree(b, a), p, a)
    ensures MergeHead(b, a) == if prevFree then prev else a
    ensures prevFree ==> FreePred(b, prev, a)
    ensures prevFree ==> prev != a
  {
    MergeHeadIs(b, start, end, a);
    var h := MergeHead(b, a);
    if prevFree {
      assert prev in b && b[prev].size > 0;
      assert FreePred(b, prev, a);
    } else if h != a {
      assert FreePred(MarkFree(b, a), h, a);
    }
  }

  // ---- Splitting ----

  /** The memory after the tag stores of a split of block `a` into `need` and the rest. */
  ghost function SplitStores(w: Words, a: int, need: int, rest: int): Words
    requires a + 4 in w && a + need + 4 in w
  {
    w[a + 4 := SetAlloc(w[a + 4])][a := need][a + need - 4 := need]
     [a + need + 4 := ClearAlloc(w[a + need + 4])][a + need := rest][a + need + rest - 4 := rest]
  }

  ghost predicate CanSplit(b: Blocks, a: int, need: int) {
    Free(b, a) && MIN_BLOCK <= need && need % 4 == 0 && b[a].size - need >= MIN_BLOCK
  }

  /** The words a split writes exist. */
  lemma SplitBacked(w: Words, start: int, end: int, b: Blocks, a: int, need: int)
    requires Backed(w, start, end) && Shaped(b, start, end) && Aligned(b) && CanSplit(b, a, need)
    ensures a in w && a + 4 in w && a + need - 4 in w && a + need in w && a + need + 4 in w
    ensures a + need + 8 in w && a + need + 12 in w && a + b[a].size - 4 in w
  {
    var n := a + need;
    assert WordAddr(a) && WordAddr(a + 4) && WordAddr(a + b[a].size - 4);
    assert WordAddr(n - 4) && WordAddr(n) && WordAddr(n + 4) && WordAddr(n + 8) && WordAddr(n + 12);
  }

  lemma SplitTags(w: Words, start: int, end: int, b: Blocks, a: int, need: int)
    requires Backed(w, start, end) && Shaped(b, start, end) && Aligned(b) && Tags(w, b) && CanSplit(b, a, need)
    requires a + 4 in w && a + need + 4 in w
    ensures Tags(SplitStores(w, a, need, b[a].size - need), Carve(b, a, need))
  {
    SplitBacked(w, start, end, b, a, need);
    var w', c := SplitStores(w, a, need, b[a].size - need), Carve(b, a, need);
    forall x | x in c
      ensures Tagged(w', c, x)
    {
      if x in b { assert Tagged(w, b, x); }
    }
  }

  lemma SplitPayloads(w: Words, start: int, end: int, b: Blocks, a: int, need: int)
    requires Backed(w, start, end) && Shaped(b, start, end) && Aligned(b) && CanSplit(b, a, need)
    requires a + 4 in w && a + need + 4 in w
    ensures PayloadsKept(w, SplitStores(w, a, need, b[a].size - need), b)
  {
    SplitBacked(w, start, end, b, a, need);
  }

  lemma SplitRing(w: Words, start: int, end: int, head: int, b: Blocks, ring: seq<int>, a: int, need: int)
    requires Loose(w, start, end, head, b, ring, {}) && CanSplit(b, a, need)
    requires a + 4 in w && a + need + 4 in w
    ensures Ring(SplitStores(w, a, need, b[a].size - need), ring)
    ensures forall i :: 0 <= i < |ring| ==> !Overlap(ring[i], a + need + 8)
  {
    SplitBacked(w, start, end, b, a, need);
    var w' := SplitStores(w, a, need, b[a].size - need);
    forall i | 0 <= i < |ring|
      ensures SameAt(w, w', ring[i]) && SameAt(w, w', ring[i] + 4) && !Overlap(ring[i], a + need + 8)
    {
      assert Linked(w, ring, i);
      if i > 0 { assert Free(b, ring[i] - 8); }
    }
    StoresKeepRing(w, w', ring);
  }

  lemma SplitListed(b: Blocks, start: int, end: int, head: int, ring: seq<int>, k: nat, a: int, need: int)
    requires Shaped(b, start, end) && Listed(b, head, ring, {}) && Apart(ring) && CanSplit(b, a, need) && At(ring, k, a)
    ensures Listed(Carve(b, a, need), head, ring[k := a + need + 8], {})
  {
    var c, r' := Carve(b, a, need), ring[k := a + need + 8];
    forall i | 1 <= i < |r'|
      ensures Free(c, r'[i] - 8)
    {
      if i != k {
        assert !Overlap(ring[if i < k then i else k], ring[if i < k then k else i]);
        assert Free(b, ring[i] - 8);
      }
    }
    forall x {:trigger OnList(r', x)} | Free(c, x)
      ensures OnList(r', x)
    {
      if x == a + need {
        assert At(r', k, x);
      } else {
        assert OnList(ring, x);
        var j :| At(ring, j, x);
        assert At(r', j, x);
      }
    }
  }

  lemma CarveKeepsBlocks(b: Blocks, start: int, end: int, a: int, need: int)
    requires Tiled(b, start, end) && Aligned(b) && Coalesced(b) && Free(b, a)
    requires MIN_BLOCK <= need <= b[a].size && need % 4 == 0
    ensures Tiled(Carve(b, a, need), start, end) && Aligned(Carve(b, a, need)) && Coalesced(Carve(b, a, need))
  {
    CarveTiled(b, start, end, a, need);
    CarveCoalesced(b, start, end, a, need);
    CarveAligned(b, a, need);
  }

  /** The node swap after the tag stores leaves the tags and the payloads alone. */
  lemma SplitRelink(w: Words, w': Words, start: int, end: int, head: int, b: Blocks, ring: seq<int>, a: int, need: int)
    requires Layout(start, end, head) && Listed(b, head, ring, {}) && CanSplit(b, a, need)
    requires Shaped(Carve(b, a, need), start, end) && Tags(w, Carve(b, a, need))
    requires SameButLinks(w, w', ring + [a + need + 8])
    ensures Tags(w', Carve(b, a, need)) && PayloadsKept(w, w', Carve(b, a, need))
  {
    var c, nodes := Carve(b, a, need), ring + [a + need + 8];
    forall i | 0 <= i < |nodes|
      ensures nodes[i] == head || nodes[i] - 8 in c
    {
      if 0 < i < |ring| { assert Free(b, ring[i] - 8); }
    }
    LinksKeepTags(w, w', start, end, head, c, nodes);
    LinksKeepPayloads(w, w', start, end, head, c, nodes);
  }

  /** Payloads kept for a heap that has grown a live block are kept for the old one. */
  lemma PayloadsChain(w: Words, w1: Words, w2: Words, b: Blocks, c: Blocks)
    requires PayloadsKept(w, w1, b) && PayloadsKept(w1, w2, c)
    requires forall x :: Live(b, x) ==> x in c && c[x] == b[x]
    ensures PayloadsKept(w, w2, b)
  {
    forall x, u {:trigger Payload(b, x, u)} | Payload(b, x, u) && u in w
      ensures w2[u] == w[u]
    {
      assert Payload(c, x, u);
    }
  }

  /** Taking a block whole: off the list, giving `w1`, then its flag is set. */
  lemma WholeStep(w: Words, w1: Words, start: int, end: int, head: int, b: Blocks, ring: seq<int>, k: nat, a: int)
    requires HeapInv(w, start, end, head, b, ring) && At(ring, k, a) && Free(b, a)
    requires Ring(w1, Without(ring, k)) && SameButLinks(w, w1, ring) && a + 4 in w1
    ensures var w2, c := w1[a + 4 := SetAlloc(w1[a + 4])], b[a := Block(b[a].size, true)];
      HeapInv(w2, start, end, head, c, Without(ring, k)) && PayloadsKept(w, w2, b)
  {
    UnlinkStep(w, w1, start, end, head, b, ring, {}, k);
    assert {} + {ring[k] - 8} == {a};
    SetStep(w1, start, end, head, b, Without(ring, k), a);
    WholeBlocks(b, start, end, a);
    PayloadsChain(w, w1, w1[a + 4 := SetAlloc(w1[a + 4])], b, b);
  }

  lemma WholeBlocks(b: Blocks, start: int, end: int, a: int)
    requires Tiled(b, start, end) && Aligned(b) && Coalesced(b) && Free(b, a)
    ensures var c := b[a := Block(b[a].size, true)]; Tiled(c, start, end) && Aligned(c) && Coalesced(c)
  {
    assert WordAddr(a);
    CarveKeepsBlocks(b, start, end, a, b[a].size);
    assert Carve(b, a, b[a].size) == b[a := Block(b[a].size, true)];
  }

  // ---- Requests ----

  const MAX_REQUEST: int := 0xFFFF_FFE8
  const WORD: int := 0x1_0000_0000

  /** The block size for a request, as 32-bit arithmetic computes it. */
  function BlockSize32(size: int): int {
    ((size + 3) % WORD / 4 * 4 + HEADER + FOOTER) % WORD
  }

  /** The rounding holds the request exactly up to `MAX_REQUEST`; above it the sum wraps. */
  lemma BlockSizeExact(size: int)
    requires 0 <= size < WORD
    ensures size <= MAX_REQUEST <==> BlockSize32(size) >= size + HEADER + FOOTER
    ensures size <= MAX_REQUEST ==> BlockSize32(size) <= size + 3 + HEADER + FOOTER && BlockSize32(size) % 4 == 0
    ensures 0 < size <= MAX_REQUEST ==> BlockSize32(size) >= MIN_BLOCK
  {
  }

  ghost predicate TooSmall(b: Blocks, a: int, need: int) {
    a in b && b[a].size < need
  }

  /** `ring[k]` is the first listed block of at least `need` bytes. */
  ghost predicate FirstFit(b: Blocks, ring: seq<int>, k: nat, need: int) {
    && 1 <= k < |ring| && Free(b, ring[k] - 8) && !TooSmall(b, ring[k] - 8, need)
    && forall i :: 1 <= i < k ==> TooSmall(b, ring[i] - 8, need)
  }

  /** The list after the block at position `k` has been allocated. */
  ghost function TakeNode(b: Blocks, ring: seq<int>, k: nat, need: int): seq<int>
    requires 1 <= k < |ring| && ring[k] - 8 in b
  {
    if b[ring[k] - 8].size - need >= MIN_BLOCK then ring[k := ring[k] + need] else Without(ring, k)
  }

  /** The first fitting block, at `a`, has been carved and its node replaced or removed. */
  ghost predicate TakenFrom(b: Blocks, ring: seq<int>, b': Blocks, ring': seq<int>, a: int, need: int) {
    exists k: nat ::
      && FirstFit(b, ring, k, need) && At(ring, k, a)
      && b' == Carve(b, a, need) && ring' == TakeNode(b, ring, k, need)
  }

  /** The bytes of the block for a request: rounded up to whole words, and 20 bytes of tags. */
  function Rounded(size: nat): nat { (size + 3) / 4 * 4 + 20 }

  /**
   * What an allocation does to the free block at `a`: a block larger by 24 bytes or more is cut, and what remains is one free
   * block of exactly the difference; a smaller one becomes live as it is.  All other blocks stay.
   */
  ghost predicate Cut(b: Blocks, b': Blocks, a: int, size: nat) {
    && a in b && !b[a].used && a in b' && b'[a].used
    && size + 20 <= b'[a].size < size + 3 + 20 + 24 && Rounded(size) <= b[a].size
    && (if b[a].size >= Rounded(size) + 24 then
          && b'[a].size == Rounded(size) && b'.Keys == b.Keys + {a + Rounded(size)}
          && b'[a + Rounded(size)] == Block(b[a].size - Rounded(size), false)
        else b'[a].size == b[a].size && b'.Keys == b.Keys)
    && forall x :: x in b && x != a ==> x in b' && b'[x] == b[x]
  }

  /** The block at `a` is the first listed one that is large enough; what remains of it takes its place on the list. */
  ghost predicate FirstListed(b: Blocks, ring: seq<int>, ring': seq<int>, a: int, size: nat) {
    a in b && exists k: nat ::
      && 1 <= k < |ring| && ring[k] == a + 8
      && (forall i :: 1 <= i < k ==> ring[i] - 8 in b && b[ring[i] - 8].size < Rounded(size))
      && ring' == if b[a].size >= Rounded(size) + 24 then ring[k := a + Rounded(size) + 8] else ring[..k] + ring[k + 1..]
  }

  /** Size in the first and the last word of every block, and bit 0 of the second word exactly if it is live. */
  lemma TagsExact(w: Words, start: int, end: int, head: int, b: Blocks, ring: seq<int>, a: int)
    requires HeapInv(w, start, end, head, b, ring) && a in b
    ensures a in w && a + 4 in w && a + b[a].size - 4 in w
    ensures w[a] == b[a].size && w[a + b[a].size - 4] == b[a].size && (w[a + 4] % 2 == 1 <==> b[a].used)
  {
    assert Tagged(w, b, a);
  }

  lemma RoundedIs(size: nat)
    requires 0 < size <= MAX_REQUEST
    ensures BlockSize32(size) == Rounded(size) && size + 20 <= Rounded(size) <= size + 23
  {
    BlockSizeExact(size);
  }

  lemma TakenIsCut(b: Blocks, start: int, end: int, ring: seq<int>, b': Blocks, ring': seq<int>, a: int, size: nat)
    requires Tiled(b, start, end) && 0 < size <= MAX_REQUEST && TakenFrom(b, ring, b', ring', a, BlockSize32(size))
    ensures Cut(b, b', a, size) && FirstListed(b, ring, ring', a, size)
  {
    RoundedIs(size);
    var k: nat :| FirstFit(b, ring, k, BlockSize32(size)) && At(ring, k, a) && b' == Carve(b, a, BlockSize32(size))
                  && ring' == TakeNode(b, ring, k, BlockSize32(size));
    assert b[a].size >= Rounded(size) && ring' == TakeNode(b, ring, k, BlockSize32(size));
    assert forall i :: 1 <= i < k ==> TooSmall(b, ring[i] - 8, BlockSize32(size));
    assert b[a].size >= Rounded(size) + 24 ==> a + Rounded(size) !in b;
  }

  ghost predicate HasStretch(b: Blocks, need: nat) {
    exists x :: FreeStretch(b, x, need)
  }

  /** A stretch of `need` free bytes exists exactly when some listed block is large enough. */
  lemma StretchIffListed(w: Words, start: int, end: int, head: int, b: Blocks, ring: seq<int>, need: nat)
    requires HeapInv(w, start, end, head, b, ring) && need > 0
    ensures HasStretch(b, need) <==> exists i :: 1 <= i < |ring| && !TooSmall(b, ring[i] - 8, need)
  {
    if HasStretch(b, need) {
      var x :| FreeStretch(b, x, need);
      var a := StretchInOneBlock(b, start, end, x, need);
      assert OnList(ring, a);
      var j :| At(ring, j, a);
    }
    if i :| 1 <= i < |ring| && !TooSmall(b, ring[i] - 8, need) {
      var a := ring[i] - 8;
      BlockIsStretch(b, a);
      assert FreeStretch(b, a, need);
    }
  }

  /** The `size` bytes from `ptr` on are payload of the live block `a`. */
  ghost predicate Holds(b: Blocks, a: int, ptr: int, size: int) {
    forall u :: ptr <= u < ptr + size ==> Payload(b, a, u)
  }

  const DIRECT_MAP: int := 0xC000_0000
  const LOWMEM: int := 0x3000_0000
  const HEAP_SIZE: int := 0x10_0000

  ghost function Initial(start: int, end: int): Blocks {
    map[start := Block(end - start, false)]
  }

  lemma InitialTiled(start: int, end: int)
    requires start % 4 == 0 && end % 4 == 0 && start + MIN_BLOCK <= end
    ensures Tiled(Initial(start, end), start, end) && Aligned(Initial(start, end)) && Coalesced(Initial(start, end))
  {
  }

  lemma InitialInv(w: Words, w': Words, start: int, end: int, head: int)
    requires Layout(start, end, head) && Backed(w, start, end) && Tags(w, Initial(start, end))
    requires Ring(w', [head, start + 8]) && SameButLinks(w, w', [head, start + 8])
    ensures HeapInv(w', start, end, head, Initial(start, end), [head, start + 8])
  {
    var b, ring := Initial(start, end), [head, start + 8];
    InitialTiled(start, end);
    LinksKeepTags(w, w', start, end, head, b, ring);
    assert At(ring, 1, start);
  }

  /** The walk along the free list. */
  method FindFit(memory: Memory, head: int, need: int, ghost blocks: Blocks, ghost ring: seq<int>)
    returns (found: bool, hdr: int, ghost k: nat)
    requires Ring(memory.words, ring) && Tags(memory.words, blocks) && Listed(blocks, head, ring, {})
    ensures found <==> exists i :: 1 <= i < |ring| && !TooSmall(blocks, ring[i] - 8, need)
    ensures found ==> FirstFit(blocks, ring, k, need) && At(ring, k, hdr)
  {
    assert Linked(memory.words, ring, 0);
    ApartFrom(ring, 0);
    var node := memory.Load(head);
    k := 1;
    while node != head
      invariant 1 <= k <= |ring| && node == if k < |ring| then ring[k] else ring[0]
      invariant forall i :: 1 <= i < k ==> TooSmall(blocks, ring[i] - 8, need)
      decreases |ring| - k
    {
      hdr := node - 8;
      assert Free(blocks, ring[k] - 8) && Tagged(memory.words, blocks, hdr);
      var blockSize := memory.Load(hdr);
      if blockSize >= need {
        return true, hdr, k;
      }
      assert Linked(memory.words, ring, k);
      node := memory.Load(node);
      k := k + 1;
    }
    return false, 0, k;
  }

  /** The list set-up of `kheap_init`: an empty list, then one node. */
  method ThreadFirst(memory: Memory, head: int, node: int)
    requires head in memory.words && head + 4 in memory.words
    requires node in memory.words && node + 4 in memory.words && !Overlap(head, node)
    modifies memory
    ensures Ring(memory.words, [head, node])
    ensures SameButLinks(old(memory.words), memory.words, [head, node])
  {
    ghost var w := memory.words;
    Init(memory, head);
    ghost var w1 := memory.words;
    InsertAfter(memory, head, node, [head], 0);
    ghost var ring := [head, node];
    assert ring == Insert([head], 1, node);
    forall a | a in w && forall i :: 0 <= i < |ring| ==> !LinkOf(ring[i], a)
      ensures memory.words[a] == w[a]
    {
      assert !LinkOf(ring[0], a);
      assert w1[a] == w[a];
    }
  }

  /** The words that the first block needs are there. */
  lemma FirstWords(w: Words, start: int, end: int, head: int)
    requires Layout(start, end, head) && Backed(w, start, end)
    ensures {start, start + 4, start + 8, start + 12, end - 4} <= w.Keys
  {
    assert WordAddr(start) && WordAddr(start + 4) && WordAddr(start + 8) && WordAddr(start + 12) && WordAddr(end - 4);
  }

  /** Tags and list of the first block. */
  method FirstBlock(memory: Memory, start: int, end: int, head: int)
    requires Layout(start, end, head) && Backed(memory.words, start, end) && end == start + HEAP_SIZE
    requires head in memory.words && head + 4 in memory.words
    modifies memory
    ensures HeapInv(memory.words, start, end, head, Initial(start, end), [head, start + 8])
  {
    FirstWords(memory.words, start, end, head);
    memory.Store(start, HEAP_SIZE);
    memory.Store(start + 4, 0);
    memory.Store(end - 4, HEAP_SIZE);
    assert Tagged(memory.words, Initial(start, end), start);
    ghost var w := memory.words;
    ThreadFirst(memory, head, start + 8);
    InitialInv(w, memory.words, start, end, head);
  }

  class Heap {
    const start: int
    const end: int
    const head: int
    const memory: Memory
    ghost var blocks: Blocks
    ghost var ring: seq<int>

    ghost predicate Valid()
      reads this, memory
    {
      HeapInv(memory.words, start, end, head, blocks, ring)
    }

    /** `kheap_init`: one free block over the 256 frames at `phys`, which the frame allocator handed out. */
    constructor (memory: Memory, phys: int, head: int)
      requires 0 <= phys <= LOWMEM - HEAP_SIZE && phys % 4096 == 0
      requires Layout(phys + DIRECT_MAP, phys + DIRECT_MAP + HEAP_SIZE, head)
      requires Backed(memory.words, phys + DIRECT_MAP, phys + DIRECT_MAP + HEAP_SIZE)
      requires head in memory.words && head + 4 in memory.words
      modifies memory
      ensures Valid() && this.memory == memory
      ensures start == phys + DIRECT_MAP && end == start + HEAP_SIZE && this.head == head
      ensures start == phys + 0xC000_0000 && blocks == map[start := Block(0x10_0000, false)]
      ensures blocks == Initial(start, end) && ring == [head, start + 8]
    {
      this.memory := memory;
      start := phys + DIRECT_MAP;
      end := phys + DIRECT_MAP + HEAP_SIZE;
      this.head := head;
      blocks := Initial(phys + DIRECT_MAP, phys + DIRECT_MAP + HEAP_SIZE);
      ring := [head, phys + DIRECT_MAP + 8];
      new;
      FirstBlock(memory, start, end, head);
    }

    /** Allocates from the free block at position `k` of the list: splits it, or takes it whole. */
    method Take(hdr: int, need: int, ghost k: nat)
      requires Valid() && At(ring, k, hdr) && Free(blocks, hdr)
      requires MIN_BLOCK <= need <= blocks[hdr].size && need % 4 == 0
      modifies this, memory
      ensures Valid()
      ensures blocks == Carve(old(blocks), hdr, need)
      ensures ring == TakeNode(old(blocks), old(ring), k, need)
      ensures PayloadsKept(old(memory.words), memory.words, old(blocks))
    {
      assert Tagged(memory.words, blocks, hdr);
      var oldSize := memory.Load(hdr);
      var remaining := oldSize - need;
      if remaining >= MIN_BLOCK {
        Split(hdr, need, remaining, k);
      } else {
        TakeWhole(hdr, k);
      }
    }

    method TakeWhole(hdr: int, ghost k: nat)
      requires Valid() && At(ring, k, hdr) && Free(blocks, hdr)
      modifies this, memory
      ensures Valid()
      ensures blocks == old(blocks)[hdr := Block(old(blocks)[hdr].size, true)]
      ensures ring == Without(old(ring), k)
      ensures PayloadsKept(old(memory.words), memory.words, old(blocks))
    {
      ghost var w, b := memory.words, blocks;
      assert Tagged(w, b, hdr);
      Remove(memory, hdr + 8, ring, k);
      ghost var w1 := memory.words;
      var flags := memory.Load(hdr + 4);
      memory.Store(hdr + 4, SetAlloc(flags));
      WholeStep(w, w1, start, end, head, b, ring, k, hdr);
      ring := Without(ring, k);
      blocks := b[hdr := Block(b[hdr].size, true)];
    }

    method StoreSplitTags(hdr: int, need: int, remaining: int)
      requires hdr in memory.words && hdr + 4 in memory.words && hdr + need - 4 in memory.words
      requires hdr + need in memory.words && hdr + need + 4 in memory.words && hdr + need + remaining - 4 in memory.words
      requires MIN_BLOCK <= need
      modifies memory
      ensures memory.words == SplitStores(old(memory.words), hdr, need, remaining)
    {
      var flags := memory.Load(hdr + 4);
      memory.Store(hdr + 4, SetAlloc(flags));
      memory.Store(hdr, need);
      memory.Store(hdr + need - 4, need);
      var freeFlags := memory.Load(hdr + need + 4);
      memory.Store(hdr + need + 4, ClearAlloc(freeFlags));
      memory.Store(hdr + need, remaining);
      memory.Store(hdr + need + remaining - 4, remaining);
    }

    method Split(hdr: int, need: int, remaining: int, ghost k: nat)
      requires Valid() && At(ring, k, hdr) && CanSplit(blocks, hdr, need)
      requires remaining == blocks[hdr].size - need
      modifies this, memory
      ensures Valid()
      ensures blocks == Carve(old(blocks), hdr, need)
      ensures ring == old(ring)[k := hdr + need + 8]
      ensures PayloadsKept(old(memory.words), memory.words, old(blocks))
    {
      ghost var w, b := memory.words, blocks;
      SplitBacked(w, start, end, b, hdr, need);
      SplitRing(w, start, end, head, b, ring, hdr, need);
      SplitTags(w, start, end, b, hdr, need);
      SplitPayloads(w, start, end, b, hdr, need);
      SplitListed(b, start, end, head, ring, k, hdr, need);
      CarveKeepsBlocks(b, start, end, hdr, need);
      StoreSplitTags(hdr, need, remaining);
      ghost var w1 := memory.words;
      Replace(memory, hdr + 8, hdr + need + 8, ring, k);
      SplitRelink(w1, memory.words, start, end, head, b, ring, hdr, need);
      PayloadsChain(w, w1, memory.words, b, Carve(b, hdr, need));
      ring := ring[k := hdr + need + 8];
      blocks := Carve(b, hdr, need);
    }

    /** Allocates the first fitting block. */
    method TakeFit(need: int) returns (found: bool, hdr: int)
      requires Valid() && MIN_BLOCK <= need && need % 4 == 0
      modifies this, memory
      ensures Valid()
      ensures found <==> HasStretch(old(blocks), need)
      ensures !found ==> unchanged(this) && unchanged(memory)
      ensures found ==> TakenFrom(old(blocks), old(ring), blocks, ring, hdr, need)
      ensures found ==> Live(blocks, hdr) && blocks[hdr].size >= need && WordAddr(hdr)
      ensures PayloadsKept(old(memory.words), memory.words, old(blocks))
    {
      StretchIffListed(memory.words, start, end, head, blocks, ring, need);
      ghost var k;
      found, hdr, k := FindFit(memory, head, need, blocks, ring);
      if found {
        assert WordAddr(hdr);
        Take(hdr, need, k);
      }
    }

    /** A block of `need` bytes, which hold `size` bytes between the tags. */
    method TakeFor(size: int, need: int) returns (r: Allocation)
      requires Valid() && MIN_BLOCK <= need && need % 4 == 0 && 0 < size <= need - HEADER - FOOTER
      modifies this, memory
      ensures Valid()
      ensures if HasStretch(old(blocks), need) then r.Allocated? else r == AllocFailed(OutOfMemory)
      ensures r.AllocFailed? ==> unchanged(this) && unchanged(memory)
      ensures r.Allocated? ==> TakenFrom(old(blocks), old(ring), blocks, ring, r.ptr - HEADER, need)
      ensures r.Allocated? ==> r.ptr % 4 == 0 && Holds(blocks, r.ptr - HEADER, r.ptr, size)
      ensures PayloadsKept(old(memory.words), memory.words, old(blocks))
    {
      var found, hdr := TakeFit(need);
      return if found then Allocated(hdr + HEADER) else AllocFailed(OutOfMemory);
    }

    /** First fit.  Fails only for an empty request, or when no contiguous free stretch is large enough. */
    method Kmalloc(size: int) returns (r: Allocation)
      requires Valid() && 0 <= size <= MAX_REQUEST
      modifies this, memory
      ensures Valid()
      ensures r == AllocFailed(InvalidArgument) <==> size == 0
      ensures r == AllocFailed(OutOfMemory) <==> size > 0 && !HasStretch(old(blocks), BlockSize32(size))
      ensures r == AllocFailed(OutOfMemory) <==> size > 0 && !HasStretch(old(blocks), Rounded(size))
      ensures r.Allocated? ==> Cut(old(blocks), blocks, r.ptr - 16, size) && FirstListed(old(blocks), old(ring), ring, r.ptr - 16, size)
      ensures r.AllocFailed? ==> unchanged(this) && unchanged(memory)
      ensures r.Allocated? ==> TakenFrom(old(blocks), old(ring), blocks, ring, r.ptr - HEADER, BlockSize32(size))
      ensures r.Allocated? ==> r.ptr % 4 == 0 && Holds(blocks, r.ptr - HEADER, r.ptr, size)
      ensures PayloadsKept(old(memory.words), memory.words, old(blocks))
    {
      if size == 0 {
        return AllocFailed(InvalidArgument);
      }
      BlockSizeExact(size);
      RoundedIs(size);
      r := TakeFor(size, BlockSize32(size));
      if r.Allocated? {
        TakenIsCut(old(blocks), start, end, old(ring), blocks, ring, r.ptr - HEADER, size);
      }
    }

    /** The invariant between the steps of `Kfree`. */
    ghost predicate Between(skip: set<int>)
      reads this, memory
    {
      Loose(memory.words, start, end, head, blocks, ring, skip)
    }

    /** `kheap_merge`. */
    method Merge(left: int, right: int, ghost skip: set<int>)
      requires Between(skip) && Free(blocks, left) && Free(blocks, right) && Precedes(blocks, left, right) && right in skip
      modifies this, memory
      ensures Between(skip - {right})
      ensures blocks == Join(old(blocks), left, right) && ring == old(ring)
      ensures PayloadsKept(old(memory.words), memory.words, old(blocks))
    {
      ghost var w, b := memory.words, blocks;
      MergeStep(w, start, end, head, b, ring, skip, left, right);
      assert Tagged(w, b, left) && Tagged(w, b, right);
      MergeWords(left, right);
      blocks := Join(b, left, right);
    }

    /** The loads and stores of a merge. */
    method MergeWords(left: int, right: int)
      requires left in memory.words && right in memory.words && right + memory.words[right] - 4 in memory.words && left != right
      modifies memory
      ensures var w := old(memory.words); var size := w[left] + w[right]; memory.words == w[left := size][right + w[right] - 4 := size]
    {
      var leftSize := memory.Load(left);
      var rightSize := memory.Load(right);
      memory.Store(left, leftSize + rightSize);
      rightSize := memory.Load(right);
      leftSize := memory.Load(left);
      memory.Store(right + rightSize - 4, leftSize);
    }

    method Unlink(hdr: int, ghost skip: set<int>)
      requires Between(skip) && Free(blocks, hdr) && hdr !in skip
      modifies this, memory
      ensures Between(skip + {hdr})
      ensures blocks == old(blocks)
      ensures exists k :: At(old(ring), k, hdr) && ring == Without(old(ring), k)
      ensures PayloadsKept(old(memory.words), memory.words, old(blocks))
    {
      assert OnList(ring, hdr);
      ghost var k :| At(ring, k, hdr);
      ghost var w := memory.words;
      Remove(memory, hdr + 8, ring, k);
      UnlinkStep(w, memory.words, start, end, head, blocks, ring, skip, k);
      ring := Without(ring, k);
    }

    method LinkFront(hdr: int, ghost skip: set<int>)
      requires Between(skip) && Free(blocks, hdr) && hdr in skip
      modifies this, memory
      ensures Between(skip - {hdr})
      ensures blocks == old(blocks) && ring == Insert(old(ring), 1, hdr + 8)
      ensures PayloadsKept(old(memory.words), memory.words, old(blocks))
    {
      ghost var w := memory.words;
      FreshNode(w, start, end, head, blocks, ring, skip, hdr);
      InsertAfter(memory, head, hdr + 8, ring, 0);
      LinkStep(w, memory.words, start, end, head, blocks, ring, skip, hdr);
      ring := Insert(ring, 1, hdr + 8);
    }

    /** Looks at the blocks on both sides of `hdr` through its header and the footer below it. */
    method Neighbours(hdr: int) returns (prevFree: bool, prev: int, nextFree: bool, next: int)
      requires Between({hdr}) && hdr in blocks
      ensures prevFree ==> FreePred(blocks, prev, hdr)
      ensures !prevFree ==> forall p :: !FreePred(blocks, p, hdr)
      ensures nextFree <==> Free(blocks, Succ(blocks, hdr))
      ensures nextFree ==> next == Succ(blocks, hdr)
    {
      assert Tagged(memory.words, blocks, hdr);
      nextFree, next, prevFree, prev := false, 0, false, 0;
      var size := memory.Load(hdr);
      assert Succ(blocks, hdr) == end || Succ(blocks, hdr) in blocks;
      if hdr + size < end {
        next := hdr + size;
        assert Tagged(memory.words, blocks, next);
        var flags := memory.Load(next + 4);
        nextFree := !IsAlloc(flags);
      }
      if hdr != start {
        assert HasPred(blocks, hdr);
        ghost var p :| Precedes(blocks, p, hdr);
        assert Tagged(memory.words, blocks, p);
        var prevSize := memory.Load(hdr - 4);
        prev := hdr - prevSize;
        var flags := memory.Load(prev + 4);
        prevFree := !IsAlloc(flags);
      }
    }

    /** The coalescing of `kfree`: `hdr` has just been marked free in the heap `b`. */
    method Coalesce(hdr: int, ghost b: Blocks)
      requires Between({hdr}) && Tiled(b, start, end) && Coalesced(b) && Live(b, hdr) && blocks == MarkFree(b, hdr)
      modifies this, memory
      ensures Valid()
      ensures blocks == Release(b, hdr) && Relisted(b, old(ring), ring, hdr)
      ensures PayloadsKept(old(memory.words), memory.words, old(blocks))
    {
      ghost var w := memory.words;
      var prevFree := MergeAround(hdr, b);
      ReleaseCoalesced(b, start, end, hdr);
      if !prevFree {
        ghost var w1 := memory.words;
        LinkFront(hdr, {hdr});
        assert {hdr} - {hdr} == {};
        PayloadsChain(w, w1, memory.words, MarkFree(b, hdr), Release(b, hdr));
      }
    }

    /** Both neighbours are joined; without a free one before, the block is not on the list yet. */
    method MergeAround(hdr: int, ghost b: Blocks) returns (prevFree: bool)
      requires Between({hdr}) && Tiled(b, start, end) && Coalesced(b) && Live(b, hdr) && blocks == MarkFree(b, hdr)
      modifies this, memory
      ensures Between(if prevFree then {} else {hdr})
      ensures blocks == Release(b, hdr) && LeftList(b, old(ring), ring, Succ(b, hdr))
      ensures prevFree <==> MergeHead(b, hdr) != hdr
      ensures !prevFree ==> Free(blocks, hdr)
      ensures forall x :: Live(MarkFree(b, hdr), x) ==> x in blocks && blocks[x] == MarkFree(b, hdr)[x]
      ensures PayloadsKept(old(memory.words), memory.words, old(blocks))
    {
      var prev, nextFree, next;
      prevFree, prev, nextFree, next := Neighbours(hdr);
      ghost var w, ring0 := memory.words, ring;
      JoinedPrev(b, start, end, hdr, prevFree, prev, nextFree);
      var h := JoinPrev(hdr, prevFree, prev);
      ghost var w1, b1 := memory.words, blocks;
      if nextFree {
        AbsorbNext(h, next, if prevFree then {} else {hdr});
      }
      PayloadsChain(w, w1, memory.words, MarkFree(b, hdr), b1);
    }

    /** The block joins the free one before it, or stays off the list for now. */
    method JoinPrev(hdr: int, prevFree: bool, prev: int) returns (h: int)
      requires Between({hdr}) && Free(blocks, hdr) && (prevFree ==> Free(blocks, prev) && Precedes(blocks, prev, hdr))
      modifies this, memory
      ensures Between(if prevFree then {} else {hdr}) && h == (if prevFree then prev else hdr) && ring == old(ring)
      ensures blocks == if prevFree then Join(old(blocks), prev, hdr) else old(blocks)
      ensures PayloadsKept(old(memory.words), memory.words, old(blocks))
    {
      h := hdr;
      if prevFree {
        Merge(prev, hdr, {hdr});
        assert {hdr} - {hdr} == {};
        h := prev;
      }
    }

    /** The next block leaves the list and joins `h`. */
    method AbsorbNext(h: int, next: int, ghost skip: set<int>)
      requires Between(skip) && Free(blocks, h) && Free(blocks, next) && Precedes(blocks, h, next)
      requires skip <= {h} || (h != next && next !in skip)
      modifies this, memory
      ensures Between(skip)
      ensures blocks == Join(old(blocks), h, next)
      ensures exists k :: At(old(ring), k, next) && ring == Without(old(ring), k)
      ensures PayloadsKept(old(memory.words), memory.words, old(blocks))
    {
      ghost var w, b := memory.words, blocks;
      Unlink(next, skip);
      ghost var w1 := memory.words;
      Merge(h, next, skip + {next});
      assert skip + {next} - {next} == skip;
      PayloadsChain(w, w1, memory.words, b, b);
    }

    /**
     * Releases a live pointer, unless it is in the last block and that block has at most 40
     * bytes: `kfree` refuses those.  Pointers that its other tests catch are refused too.
     */
    method Kfree(ptr: int) returns (r: Status)
      requires Valid()
      requires ptr == 0 || ptr < start + HEADER || ptr >= end - MIN_BLOCK || ptr % 4 != 0 || ptr - HEADER in blocks
      modifies this, memory
      ensures Valid()
      ensures Live(old(blocks), ptr - HEADER) ==>
        (r == Done <==> !(ptr - HEADER + old(blocks)[ptr - HEADER].size == end && old(blocks)[ptr - HEADER].size <= 40))
      ensures Live(old(blocks), ptr - 16) ==> (r == Done <==> ptr < end - 24)
      ensures r == Done ==> Live(old(blocks), ptr - HEADER)
      ensures r == Done ==> Released(old(memory.words), memory.words, old(blocks), blocks, old(ring), ring, ptr - HEADER)
      ensures r == Done && (forall p :: p in old(blocks) && p + old(blocks)[p].size == ptr - 16 ==> old(blocks)[p].used) ==>
        |ring| > 1 && ring[0] == head && ring[1] == ptr - 8
      ensures r != Done ==> r == Refused(InvalidArgument) && unchanged(this) && unchanged(memory)
    {
      if Live(blocks, ptr - HEADER) {
        FreeGuard(blocks, start, end, ptr - HEADER);
        assert WordAddr(ptr - HEADER);
      }
      if ptr == 0 || ptr < start + HEADER || ptr >= end - MIN_BLOCK || ptr % 4 != 0 {
        return Refused(InvalidArgument);
      }
      var hdr := ptr - HEADER;
      assert Tagged(memory.words, blocks, hdr);
      var flags := memory.Load(hdr + 4);
      if !IsAlloc(flags) {
        return Refused(InvalidArgument);
      }
      ghost var w, b := memory.words, blocks;
      ClearStep(w, start, end, head, b, ring, hdr);
      memory.Store(hdr + 4, ClearAlloc(flags));
      blocks := MarkFree(b, hdr);
      ghost var w1 := memory.words;
      ghost var ring0 := ring;
      Coalesce(hdr, b);
      InFront(b, start, end, head, ring0, ring, hdr);
      PayloadsChain(w, w1, memory.words, MarkFree(b, hdr), MarkFree(b, hdr));
      return Done;
    }
  }
}

/**
 * Whole runs of the kernel heap: any sequence of requests by a client that writes only
 * inside what it was given and frees only what it holds.
 */
module HeapRuns {
  import opened IntrusiveList
  import opened HeapBlocks
  import opened KernelHeap

  datatype Request =
    | Allocate(size: int)
    | GiveBack(ptr: int)
    | Write(ptr: int, offset: int, value: int)

  /** Pointers held by the client, with the sizes it asked for. */
  type Holdings = map<int, int>

  /** The heap's live blocks are exactly the pointers held, each large enough. */
  ghost predicate Agrees(b: Blocks, live: Holdings) {
    && (forall p {:trigger p in live} :: p in live ==> Granted(b, p, live[p]))
    && (forall a {:trigger Live(b, a)} :: Live(b, a) ==> a + HEADER in live)
  }

  ghost predicate Granted(b: Blocks, p: int, size: int) {
    Live(b, p - HEADER) && 0 < size <= b[p - HEADER].size - HEADER - FOOTER
  }

  /** Address `u` is inside what was granted at `p`. */
  predicate Inside(live: Holdings, p: int, u: int) {
    p in live && p <= u < p + live[p]
  }

  /** The client's record of its writes is what memory holds. */
  ghost predicate Remembered(w: Words, live: Holdings, record: Words) {
    && (forall u {:trigger u in record} :: u in record ==> Kept(w, record, u))
    && (forall u {:trigger Owned(live, u)} :: u in record ==> Owned(live, u))
  }

  ghost predicate Kept(w: Words, record: Words, u: int)
    requires u in record
  {
    u in w && w[u] == record[u]
  }

  ghost predicate Owned(live: Holdings, u: int) {
    exists p :: Inside(live, p, u)
  }

  lemma InsideIsPayload(b: Blocks, live: Holdings, p: int, u: int)
    requires Agrees(b, live) && Inside(live, p, u)
    ensures Payload(b, p - HEADER, u)
  {
    assert Granted(b, p, live[p]);
  }

  /** What was granted to one holder overlaps neither what another holds nor any tag. */
  lemma HoldingsDisjoint(b: Blocks, start: int, end: int, live: Holdings, p: int, q: int, c: int, u: int)
    requires Tiled(b, start, end) && Agrees(b, live) && Inside(live, p, u)
    ensures Inside(live, q, u) ==> q == p
    ensures !TagByte(b, c, u)
  {
    InsideIsPayload(b, live, p, u);
    PayloadsDisjoint(b, start, end, p - HEADER, c, u);
    if Inside(live, q, u) {
      InsideIsPayload(b, live, q, u);
      PayloadsDisjoint(b, start, end, p - HEADER, q - HEADER, u);
    }
  }

  /** Operations that keep the live payloads keep the record. */
  lemma KeptThrough(w: Words, w': Words, b: Blocks, live: Holdings, record: Words)
    requires Agrees(b, live) && Remembered(w, live, record) && PayloadsKept(w, w', b)
    ensures Remembered(w', live, record)
  {
    forall u {:trigger u in record} | u in record
      ensures Kept(w', record, u)
    {
      assert Kept(w, record, u) && Owned(live, u);
      var p :| Inside(live, p, u);
      InsideIsPayload(b, live, p, u);
    }
  }

  lemma AfterMalloc(b: Blocks, start: int, end: int, ring: seq<int>, b': Blocks, ring': seq<int>, live: Holdings, p: int, size: int)
    requires Tiled(b, start, end) && Agrees(b, live) && size > 0
    requires TakenFrom(b, ring, b', ring', p - HEADER, BlockSize32(size)) && Holds(b', p - HEADER, p, size)
    ensures Agrees(b', live[p := size])
    ensures p !in live
  {
    var a, live' := p - HEADER, live[p := size];
    var k: nat :| FirstFit(b, ring, k, BlockSize32(size)) && At(ring, k, a) && b' == Carve(b, a, BlockSize32(size));
    assert Payload(b', a, p) && Payload(b', a, p + size - 1);
    forall q {:trigger q in live'} | q in live'
      ensures Granted(b', q, live'[q])
    {
      if q != p { assert Granted(b, q, live[q]); }
    }
    forall x {:trigger Live(b', x)} | Live(b', x)
      ensures x + HEADER in live'
    {
      assert x == a || Live(b, x);
    }
  }

  lemma AfterFree(b: Blocks, start: int, end: int, live: Holdings, p: int)
    requires Tiled(b, start, end) && Agrees(b, live) && p in live
    ensures Live(b, p - HEADER) && Agrees(Release(b, p - HEADER), live - {p})
  {
    var a, live' := p - HEADER, live - {p};
    assert Granted(b, p, live[p]);
    MergeHeadIs(b, start, end, a);
    forall q {:trigger q in live'} | q in live'
      ensures Granted(Release(b, a), q, live'[q])
    {
      assert Granted(b, q, live[q]);
      ReleaseElsewhere(b, start, end, a, q - HEADER);
    }
    forall x {:trigger Live(Release(b, a), x)} | Live(Release(b, a), x)
      ensures x + HEADER in live'
    {
      ReleaseElsewhere(b, start, end, a, x);
      assert Live(b, x);
    }
  }

  lemma AfterMark(b: Blocks, live: Holdings, p: int)
    requires Agrees(b, live) && p in live
    ensures Live(b, p - HEADER) && Agrees(MarkFree(b, p - HEADER), live - {p})
  {
    var a, live' := p - HEADER, live - {p};
    assert Granted(b, p, live[p]);
    forall q {:trigger q in live'} | q in live'
      ensures Granted(MarkFree(b, a), q, live'[q])
    {
      assert Granted(b, q, live[q]);
    }
    forall x {:trigger Live(MarkFree(b, a), x)} | Live(MarkFree(b, a), x)
      ensures x + HEADER in live'
    {
      assert Live(b, x);
    }
  }

  /** Forgetting what lay in a freed block keeps the rest of the record. */
  lemma RecordAfterFree(w: Words, b: Blocks, start: int, end: int, live: Holdings, record: Words, p: int)
    requires Tiled(b, start, end) && Agrees(b, live) && Remembered(w, live, record) && p in live
    ensures Remembered(w, live - {p}, Forget(record, p, live[p]))
  {
    var record' := Forget(record, p, live[p]);
    forall u {:trigger Owned(live - {p}, u)} | u in record'
      ensures Owned(live - {p}, u)
    {
      assert Owned(live, u);
      var q :| Inside(live, q, u);
      assert Inside(live - {p}, q, u);
    }
    forall u {:trigger u in record'} | u in record'
      ensures Kept(w, record', u)
    {
      assert Kept(w, record, u);
    }
  }

  function Forget(record: Words, p: int, size: int): Words {
    map u | u in record && !(p <= u < p + size) :: record[u]
  }

  /** A word inside a payload is neither a tag nor a link: writing it keeps the heap. */
  lemma WriteKeepsHeap(w: Words, start: int, end: int, head: int, b: Blocks, ring: seq<int>, a: int, u: int, v: int)
    requires HeapInv(w, start, end, head, b, ring) && Payload(b, a, u) && Payload(b, a, u + 3) && WordAddr(u)
    ensures u in w && HeapInv(w[u := v], start, end, head, b, ring)
  {
    assert u in w;
    var w' := w[u := v];
    forall x {:trigger Tagged(w', b, x)} | x in b
      ensures Tagged(w', b, x)
    {
      assert Tagged(w, b, x);
      PayloadsDisjoint(b, start, end, a, x, u);
    }
    forall i | 0 <= i < |ring|
      ensures SameAt(w, w', ring[i]) && SameAt(w, w', ring[i] + 4)
    {
      assert Linked(w, ring, i);
      PayloadsDisjoint(b, start, end, a, ring[i] - 8, u);
      if i > 0 { assert Free(b, ring[i] - 8); }
    }
    StoresKeepRing(w, w', ring);
  }

  /** The list of a heap in which nothing is live is the initial one. */
  lemma NothingLive(w: Words, start: int, end: int, head: int, b: Blocks, ring: seq<int>)
    requires HeapInv(w, start, end, head, b, ring) && forall a :: !Live(b, a)
    ensures b == Initial(start, end) && ring == [head, start + 8]
  {
    assert forall a :: a in b ==> !Live(b, a);
    NothingLiveIsInitial(b, start, end);
    assert OnList(ring, start);
    var k :| At(ring, k, start);
    assert |ring| > 2 ==> Free(b, ring[1] - 8) && Free(b, ring[2] - 8) && !Overlap(ring[1], ring[2]);
  }

  /** A well-behaved client: it remembers what it holds and what it wrote there. */
  class Client {
    const heap: Heap
    var live: Holdings
    var record: Words

    ghost predicate Valid()
      reads this, heap, heap.memory
    {
      && heap.Valid()
      && Agrees(heap.blocks, live)
      && Remembered(heap.memory.words, live, record)
    }

    constructor (heap: Heap)
      requires heap.Valid() && heap.blocks == Initial(heap.start, heap.end)
      ensures Valid() && this.heap == heap && live == map[] && record == map[]
    {
      this.heap := heap;
      live, record := map[], map[];
    }

    method Allocate(size: int) returns (r: Allocation)
      requires Valid() && 0 <= size <= MAX_REQUEST
      modifies this, heap, heap.memory
      ensures Valid() && record == old(record)
      ensures r.Allocated? ==> r.ptr !in old(live) && live == old(live)[r.ptr := size] && r.ptr % 4 == 0
      ensures r.AllocFailed? ==> live == old(live) && unchanged(heap) && unchanged(heap.memory)
      ensures r.Allocated? ==> TakenFrom(old(heap.blocks), old(heap.ring), heap.blocks, heap.ring, r.ptr - HEADER, BlockSize32(size))
      ensures r.AllocFailed? <==> size == 0 || !HasStretch(old(heap.blocks), BlockSize32(size))
    {
      ghost var w, b, ring := heap.memory.words, heap.blocks, heap.ring;
      r := heap.Kmalloc(size);
      assert r.AllocFailed? ==> r.error == OutOfMemory || r.error == InvalidArgument;
      KeptThrough(w, heap.memory.words, b, live, record);
      if r.Allocated? {
        AfterMalloc(b, heap.start, heap.end, ring, heap.blocks, heap.ring, live, r.ptr, size);
        OwnedStill(heap.memory.words, live, record, r.ptr, size);
        live := live[r.ptr := size];
      }
    }

    /** The pointer stays held when `kfree` refuses it. */
    method GiveBack(ptr: int) returns (r: Status)
      requires Valid() && ptr in live
      modifies this, heap, heap.memory
      ensures Valid()
      ensures r == Done ==> live == old(live) - {ptr} && record == Forget(old(record), ptr, old(live)[ptr])
      ensures r != Done ==> unchanged(this) && unchanged(heap) && unchanged(heap.memory)
      ensures r == Done <==> ptr < heap.end - MIN_BLOCK
    {
      ghost var w, b := heap.memory.words, heap.blocks;
      FreeGuard(b, heap.start, heap.end, ptr - HEADER);
      assert Granted(b, ptr, live[ptr]);
      AfterMark(b, live, ptr);
      AfterFree(b, heap.start, heap.end, live, ptr);
      RecordAfterFree(w, b, heap.start, heap.end, live, record, ptr);
      r := heap.Kfree(ptr);
      if r == Done {
        record := Forget(record, ptr, live[ptr]);
        live := live - {ptr};
        KeptThrough(w, heap.memory.words, MarkFree(b, ptr - HEADER), live, record);
      }
    }

    method Write(ptr: int, offset: int, value: int)
      requires Valid() && ptr in live && 0 <= offset && offset % 4 == 0 && offset + 4 <= live[ptr]
      modifies this, heap.memory
      ensures Valid() && live == old(live) && record == old(record)[ptr + offset := value]
    {
      ghost var w, b := heap.memory.words, heap.blocks;
      var u := ptr + offset;
      InsideIsPayload(b, live, ptr, u);
      InsideIsPayload(b, live, ptr, u + 3);
      assert WordAddr(ptr - HEADER) && WordAddr(u);
      WriteKeepsHeap(w, heap.start, heap.end, heap.head, b, heap.ring, ptr - HEADER, u, value);
      heap.memory.Store(u, value);
      assert Inside(live, ptr, u);
      RecordAfterWrite(w, live, record, u, value);
      record := record[u := value];
    }

    /**
     * Any run from a fresh heap: afterwards the heap is well formed, every word the client
     * wrote into memory it still holds is as it left it, and if it holds nothing any more
     * the heap is the single free block it started as.  Requests a well-behaved client
     * would not make are skipped.
     */
    method Run(requests: seq<Request>)
      requires Valid()
      modifies this, heap, heap.memory
      ensures Valid()
      ensures forall u :: u in record ==> u in heap.memory.words && heap.memory.words[u] == record[u]
      ensures live == map[] ==> heap.blocks == Initial(heap.start, heap.end) && heap.ring == [heap.head, heap.start + 8]
    {
      for i := 0 to |requests|
        invariant Valid()
      {
        match requests[i] {
          case Allocate(size) =>
            if 0 <= size <= MAX_REQUEST { var r := Allocate(size); }
          case GiveBack(ptr) =>
            if ptr in live { var r := GiveBack(ptr); }
          case Write(ptr, offset, value) =>
            if ptr in live && 0 <= offset && offset % 4 == 0 && offset + 4 <= live[ptr] {
              Write(ptr, offset, value);
            }
        }
      }
      assert forall u :: u in record ==> Kept(heap.memory.words, record, u);
      if live == map[] {
        assert forall a :: !Live(heap.blocks, a);
        NothingLive(heap.memory.words, heap.start, heap.end, heap.head, heap.blocks, heap.ring);
      }
    }
  }

  /** A holding of 20 bytes has a block of at least 40, so it is refused in one place only: the last 40 bytes of the heap. */
  lemma OnePlace(b: Blocks, start: int, end: int, live: Holdings, p: int)
    requires Tiled(b, start, end) && Agrees(b, live) && p in live && live[p] == 20
    ensures p >= end - MIN_BLOCK <==> p == end - MIN_BLOCK
  {
    assert Granted(b, p, live[p]);
    FreeGuard(b, start, end, p - HEADER);
  }

  lemma OwnedStill(w: Words, live: Holdings, record: Words, p: int, size: int)
    requires Remembered(w, live, record) && p !in live
    ensures Remembered(w, live[p := size], record)
  {
    forall u {:trigger Owned(live[p := size], u)} | u in record
      ensures Owned(live[p := size], u)
    {
      assert Owned(live, u);
      var q :| Inside(live, q, u);
      assert Inside(live[p := size], q, u);
    }
  }

  lemma RecordAfterWrite(w: Words, live: Holdings, record: Words, u: int, v: int)
    requires Remembered(w, live, record) && u in w && Owned(live, u)
    ensures Remembered(w[u := v], live, record[u := v])
  {
    forall x {:trigger x in record[u := v]} | x in record[u := v]
      ensures Kept(w[u := v], record[u := v], x)
    {
      if x != u { assert Kept(w, record, x); }
    }
    forall x {:trigger Owned(live, x)} | x in record[u := v]
      ensures Owned(live, x)
    {
    }
  }

  /**
   * The refusal is reachable: two requests on a fresh heap leave a live last block of 40
   * bytes, and the third, which gives it back, is refused.
   */
  method RefusedRelease(memory: Memory, phys: int, head: int) returns (r: Status)
    requires 0 <= phys <= LOWMEM - HEAP_SIZE && phys % 4096 == 0
    requires Layout(phys + DIRECT_MAP, phys + DIRECT_MAP + HEAP_SIZE, head)
    requires Backed(memory.words, phys + DIRECT_MAP, phys + DIRECT_MAP + HEAP_SIZE)
    requires head in memory.words && head + 4 in memory.words
    modifies memory
    ensures r == Refused(InvalidArgument)
  {
    var heap := new Heap(memory, phys, head);
    var ptr := FillToTail(heap);
    r := heap.Kfree(ptr);
  }

  /** Two requests that leave the last 40 bytes live. */
  method FillToTail(heap: Heap) returns (ptr: int)
    requires heap.Valid() && heap.end == heap.start + HEAP_SIZE
    requires heap.blocks == Initial(heap.start, heap.end) && heap.ring == [heap.head, heap.start + 8]
    modifies heap, heap.memory
    ensures heap.Valid() && ptr - HEADER == heap.end - 40
    ensures Live(heap.blocks, ptr - HEADER) && heap.blocks[ptr - HEADER].size == 40
  {
    var first := OnlyFit(heap, HEAP_SIZE - 60, heap.start);
    assert heap.blocks[heap.end - 40] == Block(40, false);
    ptr := OnlyFit(heap, 20, heap.end - 40);
  }

  lemma OnlyFitThere(w: Words, start: int, end: int, head: int, b: Blocks, ring: seq<int>, only: int, need: nat)
    requires HeapInv(w, start, end, head, b, ring) && |ring| == 2 && ring[1] == only + 8 && only in b && need <= b[only].size
    ensures HasStretch(b, need)
  {
    assert Free(b, ring[1] - 8);
    BlockIsStretch(b, only);
    assert FreeStretch(b, only, need);
  }

  /** When one block is listed and it fits, it is the one taken. */
  method OnlyFit(heap: Heap, size: int, ghost only: int) returns (ptr: int)
    requires heap.Valid() && 0 < size <= MAX_REQUEST
    requires |heap.ring| == 2 && heap.ring[1] == only + 8 && only in heap.blocks
    requires BlockSize32(size) <= heap.blocks[only].size
    modifies heap, heap.memory
    ensures heap.Valid() && ptr == only + HEADER
    ensures heap.blocks == Carve(old(heap.blocks), only, BlockSize32(size))
    ensures heap.ring == TakeNode(old(heap.blocks), old(heap.ring), 1, BlockSize32(size))
  {
    ghost var b, ring := heap.blocks, heap.ring;
    OnlyFitThere(heap.memory.words, heap.start, heap.end, heap.head, b, ring, only, BlockSize32(size));
    ptr := Grant(heap, size);
    OnlyFitTaken(b, ring, heap.blocks, heap.ring, only, ptr - HEADER, BlockSize32(size));
  }

  method Grant(heap: Heap, size: int) returns (ptr: int)
    requires heap.Valid() && 0 < size <= MAX_REQUEST && HasStretch(heap.blocks, BlockSize32(size))
    modifies heap, heap.memory
    ensures heap.Valid() && TakenFrom(old(heap.blocks), old(heap.ring), heap.blocks, heap.ring, ptr - HEADER, BlockSize32(size))
  {
    var r := heap.Kmalloc(size);
    assert r.AllocFailed? ==> r.error == OutOfMemory || r.error == InvalidArgument;
    ptr := r.ptr;
  }

  lemma OnlyFitTaken(b: Blocks, ring: seq<int>, b': Blocks, ring': seq<int>, only: int, a: int, need: int)
    requires |ring| == 2 && ring[1] == only + 8 && only in b && TakenFrom(b, ring, b', ring', a, need)
    ensures a == only && b' == Carve(b, only, need) && ring' == TakeNode(b, ring, 1, need)
  {
  }
}

/**
 * The abstract kernel heap: which blocks there are, which of them are allocated, and
 * what allocation and release do to them (`kernel/mm/kheap.c`).
 */
module HeapBlocks {

  const HEADER: int := 16
  const FOOTER: int := 4
  const MIN_BLOCK: int := 24

  datatype Block = Block(size: int, used: bool)

  /** Header address to block. */
  type Blocks = map<int, Block>

  /** The address one past a block. */
  ghost function Succ(b: Blocks, a: int): int
    requires a in b
  {
    a + b[a].size
  }

  /** Block `p` ends where `a` begins. */
  ghost predicate Precedes(b: Blocks, p: int, a: int) {
    p in b && p + b[p].size == a
  }

  ghost predicate HasPred(b: Blocks, a: int) {
    exists p :: Precedes(b, p, a)
  }

  ghost predicate Shaped(b: Blocks, start: int, end: int) {
    && start in b
    && (forall a :: a in b ==> start <= a && a + b[a].size <= end && b[a].size >= MIN_BLOCK)
    && (forall x, y :: x in b && y in b && x < y ==> x + b[x].size <= y)
  }

  /** Every block starts at a word and is a whole number of words long. */
  ghost predicate Aligned(b: Blocks) {
    forall a {:trigger WordAddr(a)} :: a in b ==> WordAddr(a) && b[a].size % 4 == 0
  }

  ghost predicate WordAddr(a: int) {
    a % 4 == 0
  }

  /** The blocks tile `[start, end)`: they are apart, and each is followed and preceded by another or by the heap's edge. */
  ghost predicate Tiled(b: Blocks, start: int, end: int) {
    && Shaped(b, start, end)
    && (forall a {:trigger Succ(b, a)} :: a in b ==> Succ(b, a) == end || Succ(b, a) in b)
    && (forall a {:trigger HasPred(b, a)} :: a in b && a != start ==> HasPred(b, a))
  }

  /** No two neighbouring blocks are both free. */
  ghost predicate Coalesced(b: Blocks) {
    forall a {:trigger Succ(b, a)} :: a in b && !b[a].used && Succ(b, a) in b ==> b[Succ(b, a)].used
  }

  ghost predicate Live(b: Blocks, a: int) {
    a in b && b[a].used
  }

  ghost predicate Free(b: Blocks, a: int) {
    a in b && !b[a].used
  }

  /** Allocation of `need` bytes at the head of the free block `a`, splitting it when the rest can be a block. */
  ghost function Carve(b: Blocks, a: int, need: int): Blocks
    requires a in b
  {
    if b[a].size - need >= MIN_BLOCK then
      b[a := Block(need, true)][a + need := Block(b[a].size - need, false)]
    else
      b[a := Block(b[a].size, true)]
  }

  /** Two neighbours become one free block at the lower address. */
  ghost function Join(b: Blocks, l: int, r: int): Blocks
    requires l in b && r in b && l != r
  {
    map x | x in b && x != r :: if x == l then Block(b[l].size + b[r].size, false) else b[x]
  }

  /** The block that ends at `a`, when it is free. */
  ghost predicate FreePred(b: Blocks, p: int, a: int) {
    Precedes(b, p, a) && !b[p].used
  }

  /** The block the released `a` ends up in: its predecessor when that is free, otherwise itself. */
  ghost function MergeHead(b: Blocks, a: int): int {
    if p :| FreePred(b, p, a) then p else a
  }

  ghost function MarkFree(b: Blocks, a: int): Blocks
    requires a in b
  {
    b[a := Block(b[a].size, false)]
  }

  ghost function JoinLeft(b: Blocks, h: int, a: int): Blocks
    requires h in b && a in b
  {
    if h == a then b else Join(b, h, a)
  }

  /** Release of the block `a`, merged with its free neighbours on both sides. */
  ghost function Release(b: Blocks, a: int): Blocks
    requires a in b && forall x :: x in b ==> b[x].size > 0
  {
    var h := MergeHead(b, a);
    var c := JoinLeft(MarkFree(b, a), h, a);
    if Free(b, Succ(b, a)) then Join(c, h, Succ(b, a)) else c
  }

  // ---- Tiling and the two operations ----

  lemma PredUnique(b: Blocks, start: int, end: int, p: int, q: int, a: int)
    requires Shaped(b, start, end) && Precedes(b, p, a) && Precedes(b, q, a)
    ensures p == q
  {
  }

  lemma CarveShaped(b: Blocks, start: int, end: int, a: int, need: int)
    requires Shaped(b, start, end) && Free(b, a) && MIN_BLOCK <= need <= b[a].size
    ensures Shaped(Carve(b, a, need), start, end)
  {
    var c := Carve(b, a, need);
    forall x, y | x in c && y in c && x < y
      ensures x + c[x].size <= y
    {
      var x' := if x in b then x else a;
      var y' := if y in b then y else a;
      assert x' in b && y' in b;
    }
  }

  lemma CarveSucc(b: Blocks, start: int, end: int, a: int, need: int, x: int)
    requires Tiled(b, start, end) && Free(b, a)
    requires MIN_BLOCK <= need <= b[a].size
    requires x in Carve(b, a, need)
    ensures var c := Carve(b, a, need); Succ(c, x) == end || Succ(c, x) in c
  {
    if x in b {
      assert Succ(b, x) == end || Succ(b, x) in b;
    } else {
      assert Succ(b, a) == end || Succ(b, a) in b;
    }
  }

  lemma CarvePred(b: Blocks, start: int, end: int, a: int, need: int, x: int)
    requires Tiled(b, start, end) && Free(b, a)
    requires MIN_BLOCK <= need <= b[a].size
    requires x in Carve(b, a, need) && x != start
    ensures HasPred(Carve(b, a, need), x)
  {
    var c := Carve(b, a, need);
    if x in b {
      assert HasPred(b, x);
      var p :| Precedes(b, p, x);
      if p == a && b[a].size - need >= MIN_BLOCK {
        assert Precedes(c, a + need, x);
      } else {
        assert Precedes(c, p, x);
      }
    } else {
      assert Precedes(c, a, x);
    }
  }

  lemma CarveTiled(b: Blocks, start: int, end: int, a: int, need: int)
    requires Tiled(b, start, end) && Free(b, a)
    requires MIN_BLOCK <= need <= b[a].size
    ensures Tiled(Carve(b, a, need), start, end)
  {
    var c := Carve(b, a, need);
    CarveShaped(b, start, end, a, need);
    forall x {:trigger Succ(c, x)} | x in c
      ensures Succ(c, x) == end || Succ(c, x) in c
    {
      CarveSucc(b, start, end, a, need, x);
    }
    forall x {:trigger HasPred(c, x)} | x in c && x != start
      ensures HasPred(c, x)
    {
      CarvePred(b, start, end, a, need, x);
    }
  }

  lemma CarveCoalesced(b: Blocks, start: int, end: int, a: int, need: int)
    requires Tiled(b, start, end) && Coalesced(b) && Free(b, a)
    requires MIN_BLOCK <= need <= b[a].size
    ensures Coalesced(Carve(b, a, need))
  {
    var c := Carve(b, a, need);
    forall x {:trigger Succ(c, x)} | x in c && !c[x].used && Succ(c, x) in c
      ensures c[Succ(c, x)].used
    {
      var y := if x in b && x != a then x else a;
      assert Succ(b, y) == Succ(c, x);
      assert Succ(b, y) == end || Succ(b, y) in b;
    }
  }

  lemma JoinShaped(b: Blocks, start: int, end: int, l: int, r: int)
    requires Shaped(b, start, end) && Precedes(b, l, r) && r in b
    ensures Shaped(Join(b, l, r), start, end)
  {
  }

  lemma JoinSucc(b: Blocks, start: int, end: int, l: int, r: int, x: int)
    requires Tiled(b, start, end) && Precedes(b, l, r) && r in b && x in Join(b, l, r)
    ensures var c := Join(b, l, r); Succ(c, x) == end || Succ(c, x) in c
  {
    var y := if x == l then r else x;
    assert Succ(b, y) == end || Succ(b, y) in b;
  }

  lemma JoinPred(b: Blocks, start: int, end: int, l: int, r: int, x: int)
    requires Tiled(b, start, end) && Precedes(b, l, r) && r in b && x in Join(b, l, r) && x != start
    ensures HasPred(Join(b, l, r), x)
  {
    assert HasPred(b, x);
    var p :| Precedes(b, p, x);
    assert Precedes(Join(b, l, r), if p == r then l else p, x);
  }

  lemma JoinTiled(b: Blocks, start: int, end: int, l: int, r: int)
    requires Tiled(b, start, end) && Precedes(b, l, r) && r in b
    ensures Tiled(Join(b, l, r), start, end)
  {
    var c := Join(b, l, r);
    JoinShaped(b, start, end, l, r);
    forall x {:trigger Succ(c, x)} | x in c
      ensures Succ(c, x) == end || Succ(c, x) in c
    {
      JoinSucc(b, start, end, l, r, x);
    }
    forall x {:trigger HasPred(c, x)} | x in c && x != start
      ensures HasPred(c, x)
    {
      JoinPred(b, start, end, l, r, x);
    }
  }

  lemma CarveAligned(b: Blocks, a: int, need: int)
    requires Aligned(b) && a in b && need % 4 == 0
    ensures Aligned(Carve(b, a, need))
  {
    assert WordAddr(a);
    var c := Carve(b, a, need);
    forall x {:trigger WordAddr(x)} | x in c
      ensures WordAddr(x) && c[x].size % 4 == 0
    {
      assert x in b ==> WordAddr(x);
    }
  }

  lemma JoinAligned(b: Blocks, l: int, r: int)
    requires Aligned(b) && l in b && r in b && l != r
    ensures Aligned(Join(b, l, r))
  {
    assert WordAddr(l) && WordAddr(r);
    var c := Join(b, l, r);
    forall x {:trigger WordAddr(x)} | x in c
      ensures WordAddr(x) && c[x].size % 4 == 0
    {
    }
  }

  lemma FreedTiled(b: Blocks, start: int, end: int, a: int)
    requires Tiled(b, start, end) && a in b
    ensures Tiled(b[a := Block(b[a].size, false)], start, end)
  {
    var c := b[a := Block(b[a].size, false)];
    forall x {:trigger Succ(c, x)} | x in c
      ensures Succ(c, x) == end || Succ(c, x) in c
    {
      assert Succ(b, x) == end || Succ(b, x) in b;
    }
    forall x {:trigger HasPred(c, x)} | x in c && x != start
      ensures HasPred(c, x)
    {
      assert HasPred(b, x);
      var p :| Precedes(b, p, x);
      assert Precedes(c, p, x);
    }
  }

  lemma MergeHeadIs(b: Blocks, start: int, end: int, a: int)
    requires Tiled(b, start, end) && a in b
    ensures var h := MergeHead(b, a); h in b && (h != a ==> FreePred(b, h, a))
    ensures forall p :: FreePred(b, p, a) ==> p == MergeHead(b, a)
  {
    forall p | FreePred(b, p, a)
      ensures p == MergeHead(b, a)
    {
      PredUnique(b, start, end, p, MergeHead(b, a), a);
    }
  }

  lemma ReleaseTiled(b: Blocks, start: int, end: int, a: int)
    requires Tiled(b, start, end) && Aligned(b) && Live(b, a)
    ensures Tiled(Release(b, a), start, end) && Aligned(Release(b, a))
  {
    MergeHeadIs(b, start, end, a);
    var h, s := MergeHead(b, a), Succ(b, a);
    var m := MarkFree(b, a);
    FreedTiled(b, start, end, a);
    var c := JoinLeft(m, h, a);
    if h != a {
      JoinTiled(m, start, end, h, a);
      JoinAligned(m, h, a);
    }
    if Free(b, s) {
      assert Precedes(c, h, s);
      JoinTiled(c, start, end, h, s);
      JoinAligned(c, h, s);
    }
  }

  /** What each block other than the released one and its merged neighbours looks like afterwards. */
  lemma ReleaseElsewhere(b: Blocks, start: int, end: int, a: int, x: int)
    requires Tiled(b, start, end) && Live(b, a)
    ensures var h, s, r := MergeHead(b, a), Succ(b, a), Release(b, a);
      && (x in r <==> x in b && (x == a ==> h == a) && !(x == s && Free(b, s)))
      && (x in r && x != h ==> r[x] == b[x])
      && h in r && !r[h].used
      && Succ(r, h) == if Free(b, s) then Succ(b, s) else s
  {
    MergeHeadIs(b, start, end, a);
  }

  lemma ReleaseCoalesced(b: Blocks, start: int, end: int, a: int)
    requires Tiled(b, start, end) && Coalesced(b) && Live(b, a)
    ensures Coalesced(Release(b, a))
  {
    var h, s, r := MergeHead(b, a), Succ(b, a), Release(b, a);
    MergeHeadIs(b, start, end, a);
    forall x {:trigger Succ(r, x)} | x in r && !r[x].used && Succ(r, x) in r
      ensures r[Succ(r, x)].used
    {
      ReleaseElsewhere(b, start, end, a, x);
      ReleaseElsewhere(b, start, end, a, Succ(r, x));
      assert s == end || s in b;
      if x == h {
        if Free(b, s) { assert Succ(b, s) == end || Succ(b, s) in b; }
      } else {
        assert Succ(b, x) == Succ(r, x);
        if Succ(r, x) == h && h == a {
          assert FreePred(b, x, a);
        }
      }
    }
  }

  // ---- What the invariant means ----

  ghost predicate Within(b: Blocks, a: int, x: int) {
    a in b && a <= x < a + b[a].size
  }

  /** Every byte of the heap lies in exactly one block. */
  lemma EveryByteInOneBlock(b: Blocks, start: int, end: int, x: int) returns (a: int)
    requires Tiled(b, start, end) && start <= x < end
    ensures Within(b, a, x)
    ensures forall y :: Within(b, y, x) ==> y == a
  {
    a := start;
    while a + b[a].size <= x
      invariant a in b && a <= x
      decreases x - a
    {
      assert Succ(b, a) == end || Succ(b, a) in b;
      a := a + b[a].size;
    }
  }

  ghost predicate ByteFree(b: Blocks, x: int) {
    exists a :: Within(b, a, x) && !b[a].used
  }

  ghost predicate FreeStretch(b: Blocks, x: int, n: nat) {
    forall y {:trigger ByteFree(b, y)} :: x <= y < x + n ==> ByteFree(b, y)
  }

  lemma FreeBlockEnds(b: Blocks, start: int, end: int, a: int)
    requires Tiled(b, start, end) && Coalesced(b) && Free(b, a)
    ensures !ByteFree(b, Succ(b, a))
  {
    assert Succ(b, a) == end || Succ(b, a) in b;
  }

  /** Coalescing is maximal: a contiguous free stretch never crosses from one block into another. */
  lemma StretchInOneBlock(b: Blocks, start: int, end: int, x: int, n: nat) returns (a: int)
    requires Tiled(b, start, end) && Coalesced(b) && n > 0 && FreeStretch(b, x, n)
    ensures Free(b, a) && a <= x && x + n <= a + b[a].size
  {
    assert ByteFree(b, x);
    a :| Within(b, a, x) && !b[a].used;
    FreeBlockEnds(b, start, end, a);
    assert !ByteFree(b, Succ(b, a));
  }

  /** A free block is a free stretch. */
  lemma BlockIsStretch(b: Blocks, a: int)
    requires Free(b, a) && b[a].size >= 0
    ensures FreeStretch(b, a, b[a].size)
  {
    forall y {:trigger ByteFree(b, y)} | a <= y < a + b[a].size
      ensures ByteFree(b, y)
    {
      assert Within(b, a, y);
    }
  }

  /** When nothing is allocated the heap is one free block. */
  lemma NothingLiveIsInitial(b: Blocks, start: int, end: int)
    requires Tiled(b, start, end) && Coalesced(b) && forall a :: a in b ==> !b[a].used
    ensures b == map[start := Block(end - start, false)]
  {
    assert Succ(b, start) == end;
    assert forall x :: x in b ==> x == start;
  }

  /** The bytes a caller owns in the live block `a`. */
  ghost predicate Payload(b: Blocks, a: int, u: int) {
    Live(b, a) && a + HEADER <= u < a + b[a].size - FOOTER
  }

  ghost predicate TagByte(b: Blocks, a: int, u: int) {
    a in b && (a <= u < a + HEADER || a + b[a].size - FOOTER <= u < a + b[a].size)
  }

  /** Live payloads share no byte with one another, nor with any header or footer. */
  lemma PayloadsDisjoint(b: Blocks, start: int, end: int, a: int, c: int, u: int)
    requires Tiled(b, start, end) && Payload(b, a, u)
    ensures Payload(b, c, u) ==> c == a
    ensures !TagByte(b, c, u)
    ensures start <= u < end
  {
    assert a in b;
  }

  /**
   * `kfree` tests `ptr < end - MIN_BLOCK`.  Among block payloads the test fails exactly
   * for a last block of at most 40 bytes.
   */
  lemma FreeGuard(b: Blocks, start: int, end: int, a: int)
    requires Tiled(b, start, end) && a in b
    ensures start + HEADER <= a + HEADER
    ensures a + HEADER >= end - MIN_BLOCK <==> Succ(b, a) == end && b[a].size <= 40
  {
    assert Succ(b, a) == end || Succ(b, a) in b;
  }
}

/**
 * The intrusive circular doubly linked list of `klib/list.h`, over raw memory.
 *
 * A list node is two consecutive words: `next` at the node's address and `prev` four
 * bytes above it.  The sentinel (`struct list`) is a node like any other.
 */
module IntrusiveList {

  /** Raw kernel memory: word address (always a multiple of four) to 32-bit word. */
  type Words = map<int, int>

  class Memory {
    var words: Words

    constructor (initial: Words)
      ensures words == initial
    {
      words := initial;
    }

    method Load(a: int) returns (v: int)
      requires a in words
      ensures v == words[a]
    {
      v := words[a];
    }

    method Store(a: int, v: int)
      requires a in words
      modifies this
      ensures words == old(words)[a := v]
    {
      words := words[a := v];
    }
  }

  ghost function Next(ring: seq<int>, i: nat): int
    requires i < |ring|
  {
    if i + 1 < |ring| then ring[i + 1] else ring[0]
  }

  ghost function Prev(ring: seq<int>, i: nat): int
    requires i < |ring|
  {
    if i == 0 then ring[|ring| - 1] else ring[i - 1]
  }

  /** No two nodes of the ring share a word. */
  ghost predicate Apart(ring: seq<int>) {
    forall i, j {:trigger Overlap(ring[i], ring[j])} :: 0 <= i < j < |ring| ==> !Overlap(ring[i], ring[j])
  }

  ghost predicate Overlap(n: int, m: int) {
    n == m || n + 4 == m || m + 4 == n
  }

  /** The memory holds a circular list whose nodes, from the sentinel on, are `ring`. */
  ghost predicate Ring(w: Words, ring: seq<int>) {
    && |ring| >= 1
    && Apart(ring)
    && forall i {:trigger Linked(w, ring, i)} :: 0 <= i < |ring| ==> Linked(w, ring, i)
  }

  ghost predicate Linked(w: Words, ring: seq<int>, i: nat)
    requires i < |ring|
  {
    && ring[i] in w && ring[i] + 4 in w
    && w[ring[i]] == Next(ring, i)
    && w[ring[i] + 4] == Prev(ring, i)
  }

  /** `a` is a link word of the node `n`. */
  ghost predicate LinkOf(n: int, a: int) {
    a == n || a == n + 4
  }

  /** The two memories have the same words, except perhaps link words of nodes in `nodes`. */
  ghost predicate SameButLinks(w: Words, w': Words, nodes: seq<int>) {
    && w'.Keys == w.Keys
    && forall a :: a in w && (forall i :: 0 <= i < |nodes| ==> !LinkOf(nodes[i], a)) ==> w'[a] == w[a]
  }

  ghost function Without(ring: seq<int>, k: nat): seq<int>
    requires k < |ring|
  {
    ring[..k] + ring[k + 1..]
  }

  ghost function Insert(ring: seq<int>, k: nat, n: int): seq<int>
    requires k <= |ring|
  {
    ring[..k] + [n] + ring[k..]
  }

  lemma ApartFrom(ring: seq<int>, k: nat)
    requires Apart(ring) && k < |ring|
    ensures forall i :: 0 <= i < |ring| && i != k ==> !Overlap(ring[i], ring[k])
  {
    forall i | 0 <= i < |ring| && i != k
      ensures !Overlap(ring[i], ring[k])
    {
      assert i < k ==> !Overlap(ring[i], ring[k]);
      assert k < i ==> !Overlap(ring[k], ring[i]);
    }
  }

  method Init(mem: Memory, head: int)
    requires head in mem.words && head + 4 in mem.words
    modifies mem
    ensures Ring(mem.words, [head])
    ensures SameButLinks(old(mem.words), mem.words, [head])
  {
    mem.Store(head, head);
    mem.Store(head + 4, head);
    assert LinkOf([head][0], head) && LinkOf([head][0], head + 4);
  }

  /** `k` is the position of `node`; the new node follows it. */
  method InsertAfter(mem: Memory, node: int, n: int, ghost ring: seq<int>, ghost k: nat)
    requires Ring(mem.words, ring) && k < |ring| && ring[k] == node
    requires n in mem.words && n + 4 in mem.words
    requires forall i :: 0 <= i < |ring| ==> !Overlap(ring[i], n)
    modifies mem
    ensures Ring(mem.words, Insert(ring, k + 1, n))
    ensures SameButLinks(old(mem.words), mem.words, Insert(ring, k + 1, n))
  {
    assert Linked(mem.words, ring, k);
    ghost var k' := if k + 1 < |ring| then k + 1 else 0;
    assert Linked(mem.words, ring, k');
    mem.Store(n + 4, node);
    var next := mem.Load(node);
    mem.Store(n, next);
    mem.Store(next + 4, n);
    mem.Store(node, n);
    assert next == ring[k'];
    InsertAfterRing(old(mem.words), mem.words, ring, k, k', n);
  }

  /** The first word of a node is the next one and the second the one before, round the ring. */
  lemma LinksExact(w: Words, ring: seq<int>, i: nat)
    requires Ring(w, ring) && i < |ring|
    ensures ring[i] in w && w[ring[i]] == ring[if i + 1 < |ring| then i + 1 else 0]
    ensures ring[i] + 4 in w && w[ring[i] + 4] == ring[if i > 0 then i - 1 else |ring| - 1]
  {
    var k := if i > 0 then i - 1 else |ring| - 1;
    assert Linked(w, ring, i) && Linked(w, ring, k);
  }

  /** The four stores, in the order of the source. */
  method LinkBefore(mem: Memory, node: int, n: int, ghost prev: int)
    requires n in mem.words && n + 4 in mem.words && node + 4 in mem.words && mem.words[node + 4] == prev && prev in mem.words
    requires n != node + 4
    modifies mem
    ensures mem.words == old(mem.words)[n := node][n + 4 := prev][prev := n][node + 4 := n]
  {
    mem.Store(n, node);
    var p := mem.Load(node + 4);
    mem.Store(n + 4, p);
    mem.Store(p, n);
    mem.Store(node + 4, n);
  }

  /** `k` is the position of `node`; the new node precedes it, and so ends the list if that is the sentinel. */
  method InsertBefore(mem: Memory, node: int, n: int, ghost ring: seq<int>, ghost k: nat)
    requires Ring(mem.words, ring) && k < |ring| && ring[k] == node
    requires n in mem.words && n + 4 in mem.words
    requires forall i :: 0 <= i < |ring| ==> !Overlap(ring[i], n)
    modifies mem
    ensures Ring(mem.words, Insert(ring, if k == 0 then |ring| else k, n))
    ensures SameButLinks(old(mem.words), mem.words, Insert(ring, if k == 0 then |ring| else k, n))
  {
    assert Linked(mem.words, ring, k);
    ghost var j := if k == 0 then |ring| - 1 else k - 1;
    assert Linked(mem.words, ring, j);
    ApartFrom(ring, k);
    LinkBefore(mem, node, n, ring[j]);
    ghost var w := old(mem.words);
    StoreOrder(w, n, ring[k], ring[j]);
    InsertAfterRing(w, mem.words, ring, j, k, n);
  }

  lemma StoreOrder(w: Words, n: int, node: int, prev: int)
    requires !Overlap(n, node) && !Overlap(n, prev) && prev != node + 4
    ensures w[n := node][n + 4 := prev][prev := n][node + 4 := n] == w[n + 4 := prev][n := node][node + 4 := n][prev := n]
  {
  }

  lemma InsertAfterRing(w: Words, w': Words, ring: seq<int>, k: nat, k': nat, n: int)
    requires Ring(w, ring) && k < |ring| && k' == if k + 1 < |ring| then k + 1 else 0
    requires n in w && n + 4 in w
    requires forall i :: 0 <= i < |ring| ==> !Overlap(ring[i], n)
    requires ring[k'] + 4 in w && ring[k] in w
    requires w' == w[n + 4 := ring[k]][n := ring[k']][ring[k'] + 4 := n][ring[k] := n]
    ensures Ring(w', Insert(ring, k + 1, n))
    ensures SameButLinks(w, w', Insert(ring, k + 1, n))
  {
    var r' := Insert(ring, k + 1, n);
    ApartFrom(ring, k);
    ApartFrom(ring, k');
    forall i | 0 <= i < |r'|
      ensures Linked(w', r', i)
    {
      if i <= k {
        assert r'[i] == ring[i] && Linked(w, ring, i);
      } else if i > k + 1 {
        assert r'[i] == ring[i - 1] && Linked(w, ring, i - 1);
      }
    }
    assert r'[k + 1] == n && r'[k] == ring[k];
    assert r'[if k + 1 < |ring| then k + 2 else 0] == ring[k'];
  }

  /** `k` is the position of the removed node, which is not the sentinel. */
  method Remove(mem: Memory, node: int, ghost ring: seq<int>, ghost k: nat)
    requires Ring(mem.words, ring) && 1 <= k < |ring| && ring[k] == node
    modifies mem
    ensures Ring(mem.words, Without(ring, k))
    ensures SameButLinks(old(mem.words), mem.words, ring)
    ensures node in mem.words && node + 4 in mem.words
    ensures mem.words[node] == 0 && mem.words[node + 4] == 0
  {
    ghost var k' := if k + 1 < |ring| then k + 1 else 0;
    assert Linked(mem.words, ring, k) && Linked(mem.words, ring, k - 1) && Linked(mem.words, ring, k');
    var prev := mem.Load(node + 4);
    var next := mem.Load(node);
    mem.Store(prev, next);
    mem.Store(next + 4, prev);
    mem.Store(node, 0);
    mem.Store(node + 4, 0);
    RemoveRing(old(mem.words), mem.words, ring, k, k');
  }

  lemma RemoveRing(w: Words, w': Words, ring: seq<int>, k: nat, k': nat)
    requires Ring(w, ring) && 1 <= k < |ring| && k' == if k + 1 < |ring| then k + 1 else 0
    requires ring[k'] + 4 in w && ring[k - 1] in w && ring[k] in w && ring[k] + 4 in w
    requires w' == w[ring[k - 1] := ring[k']][ring[k'] + 4 := ring[k - 1]][ring[k] := 0][ring[k] + 4 := 0]
    ensures Ring(w', Without(ring, k))
    ensures SameButLinks(w, w', ring)
  {
    var r' := Without(ring, k);
    ApartFrom(ring, k - 1);
    ApartFrom(ring, k);
    ApartFrom(ring, k');
    forall i | 0 <= i < |r'|
      ensures Linked(w', r', i)
    {
      if i < k {
        assert r'[i] == ring[i] && Linked(w, ring, i);
      } else {
        assert r'[i] == ring[i + 1] && Linked(w, ring, i + 1);
      }
    }
  }

  /** The new node takes the place `k` of the old one. */
  method Replace(mem: Memory, node: int, n: int, ghost ring: seq<int>, ghost k: nat)
    requires Ring(mem.words, ring) && 1 <= k < |ring| && ring[k] == node
    requires n in mem.words && n + 4 in mem.words
    requires forall i :: 0 <= i < |ring| ==> !Overlap(ring[i], n)
    modifies mem
    ensures Ring(mem.words, ring[k := n])
    ensures SameButLinks(old(mem.words), mem.words, ring + [n])
  {
    ghost var k' := if k + 1 < |ring| then k + 1 else 0;
    assert Linked(mem.words, ring, k) && Linked(mem.words, ring, k - 1) && Linked(mem.words, ring, k');
    var prev := mem.Load(node + 4);
    mem.Store(n + 4, prev);
    var next := mem.Load(node);
    mem.Store(n, next);
    mem.Store(prev, n);
    mem.Store(next + 4, n);
    mem.Store(node, 0);
    mem.Store(node + 4, 0);
    ReplaceRing(old(mem.words), mem.words, ring, k, k', n);
  }

  lemma ReplaceRing(w: Words, w': Words, ring: seq<int>, k: nat, k': nat, n: int)
    requires Ring(w, ring) && 1 <= k < |ring| && k' == if k + 1 < |ring| then k + 1 else 0
    requires n in w && n + 4 in w
    requires forall i :: 0 <= i < |ring| ==> !Overlap(ring[i], n)
    requires ring[k'] + 4 in w && ring[k - 1] in w && ring[k] in w && ring[k] + 4 in w
    requires w' == w[n + 4 := ring[k - 1]][n := ring[k']][ring[k - 1] := n][ring[k'] + 4 := n][ring[k] := 0][ring[k] + 4 := 0]
    ensures Ring(w', ring[k := n])
    ensures SameButLinks(w, w', ring + [n])
  {
    var r' := ring[k := n];
    ApartFrom(ring, k - 1);
    ApartFrom(ring, k);
    ApartFrom(ring, k');
    forall i | 0 <= i < |r'|
      ensures Linked(w', r', i)
    {
      assert Linked(w, ring, i);
    }
    var touched := ring + [n];
    assert touched[|ring|] == n;
    assert touched[k] == ring[k] && touched[k - 1] == ring[k - 1] && touched[k'] == ring[k'];
  }
}

/**
 * The FAT32 image writer (`tools/mkimage/fat32.c`): the in-memory FAT, the cluster allocator,
 * and the two passes over the tree, which first number the nodes and then write them.
 */
module Fat32Writer {
  import opened PhysicalBytes
  import opened Fat32Layout
  import opened Fat32Entries
  import opened Fat32Chains

  // ---- Directories ----

  /** The entries of a directory in order; all but the root begin with `.` and `..`. */
  function Listing(kids: seq<Node>, cluster: nat, parent: nat, isRoot: bool): (r: seq<seq<Byte>>)
    ensures |r| == |kids| + Dots(isRoot)
    ensures forall i {:trigger r[i]} :: 0 <= i < |r| ==> |r[i]| == ENTRY_SIZE
  {
    (if isRoot then [] else [DotEntry(cluster), DotDotEntry(parent)])
    + seq(|kids|, i requires 0 <= i < |kids| => EntryOf(kids[i]))
  }

  function Dots(isRoot: bool): nat { if isRoot then 0 else 2 }

  function DotEntry(c: nat): (r: seq<Byte>)
    ensures |r| == ENTRY_SIZE
  {
    EntryBytes([DOT] + seq(10, _ => SPACE), ATTR_DIRECTORY, c, 0)
  }

  function DotDotEntry(c: nat): (r: seq<Byte>)
    ensures |r| == ENTRY_SIZE
  {
    EntryBytes([DOT, DOT] + seq(9, _ => SPACE), ATTR_DIRECTORY, c, 0)
  }

  /** `.` names the directory itself and `..` its parent, both as directories of size 0; the children follow in order. */
  lemma ListingExact(kids: seq<Node>, cluster: nat, parent: nat, isRoot: bool)
    ensures var l := Listing(kids, cluster, parent, isRoot);
      && |l| == |kids| + (if isRoot then 0 else 2)
      && (!isRoot ==> Laid(l[0], [46, 32, 32, 32, 32, 32, 32, 32, 32, 32, 32], 0x10, cluster, 0))
      && (!isRoot ==> Laid(l[1], [46, 46, 32, 32, 32, 32, 32, 32, 32, 32, 32], 0x10, parent, 0))
      && forall i :: 0 <= i < |kids| ==> EntryFor(l[i + if isRoot then 0 else 2], kids[i])
  {
    EntryLaid([DOT] + seq(10, _ => SPACE), ATTR_DIRECTORY, cluster, 0);
    EntryLaid([DOT, DOT] + seq(9, _ => SPACE), ATTR_DIRECTORY, parent, 0);
    assert [DOT] + seq(10, _ => SPACE) == [46, 32, 32, 32, 32, 32, 32, 32, 32, 32, 32];
    assert [DOT, DOT] + seq(9, _ => SPACE) == [46, 46, 32, 32, 32, 32, 32, 32, 32, 32, 32];
    forall i | 0 <= i < |kids| ensures EntryFor(Listing(kids, cluster, parent, isRoot)[i + if isRoot then 0 else 2], kids[i]) {
      ListingKid(kids, cluster, parent, isRoot, i);
      EntryOfExact(kids[i]);
    }
  }

  function Slot(bytes: seq<Byte>, i: nat): (r: seq<Byte>)
    requires 32 * i + 32 <= |bytes|
    ensures |r| == ENTRY_SIZE
  {
    bytes[32 * i..32 * i + 32]
  }

  ghost predicate SlotIs(bytes: seq<Byte>, i: nat, e: seq<Byte>) {
    32 * i + 32 <= |bytes| && Slot(bytes, i) == e
  }

  /** The bytes begin with the given entries, and all other slots are zero. */
  ghost predicate Lists(bytes: seq<Byte>, entries: seq<seq<Byte>>) {
    && (forall i {:trigger SlotIs(bytes, i, entries[i])} :: 0 <= i < |entries| ==> SlotIs(bytes, i, entries[i]))
    && (forall i {:trigger SlotIs(bytes, i, Zeros(32))} ::
          |entries| <= i && 32 * i + 32 <= |bytes| ==> SlotIs(bytes, i, Zeros(32)))
  }

  lemma NothingListed(n: nat)
    ensures Lists(Zeros(n), [])
  {
    forall i {:trigger SlotIs(Zeros(n), i, Zeros(32))} | 0 <= i && 32 * i + 32 <= n ensures SlotIs(Zeros(n), i, Zeros(32)) {
      assert Slot(Zeros(n), i) == Zeros(32);
    }
  }

  ghost predicate KidEntry(kids: seq<Node>, all: seq<seq<Byte>>, start: nat, i: nat) {
    i < |kids| && start + i < |all| && NameFits(kids[i].name) && all[start + i] == EntryOf(kids[i])
  }

  ghost predicate KidEntries(kids: seq<Node>, all: seq<seq<Byte>>, start: nat) {
    forall i {:trigger KidEntry(kids, all, start, i)} :: 0 <= i < |kids| ==> KidEntry(kids, all, start, i)
  }

  lemma ListingKid(kids: seq<Node>, cluster: nat, parent: nat, isRoot: bool, i: nat)
    requires i < |kids|
    ensures Listing(kids, cluster, parent, isRoot)[Dots(isRoot) + i] == EntryOf(kids[i])
  {
    var dots := if isRoot then [] else [DotEntry(cluster), DotDotEntry(parent)];
    var rest := seq(|kids|, j requires 0 <= j < |kids| => EntryOf(kids[j]));
    assert Listing(kids, cluster, parent, isRoot) == dots + rest && |dots| == Dots(isRoot);
    assert (dots + rest)[|dots| + i] == rest[i];
  }

  lemma ListingDots(kids: seq<Node>, cluster: nat, parent: nat, isRoot: bool)
    ensures Listing(kids, cluster, parent, isRoot)[..Dots(isRoot)]
      == if isRoot then [] else [DotEntry(cluster), DotDotEntry(parent)]
  {
  }

  lemma ListingParts(g: Geometry, n: Node, parent: nat, isRoot: bool)
    requires n.Directory? && Writable(g, n, isRoot)
    ensures var all := Listing(n.kids, n.cluster, parent, isRoot);
      32 * |all| <= g.ClusterSize() && KidEntries(n.kids, all, Dots(isRoot))
  {
    var all := Listing(n.kids, n.cluster, parent, isRoot);
    forall i {:trigger KidEntry(n.kids, all, Dots(isRoot), i)} | 0 <= i < |n.kids|
      ensures KidEntry(n.kids, all, Dots(isRoot), i)
    {
      assert Writable(g, n.kids[i], false);
      ListingKid(n.kids, n.cluster, parent, isRoot, i);
    }
  }

  lemma PutSlot(bytes: seq<Byte>, entries: seq<seq<Byte>>, e: seq<Byte>)
    requires Lists(bytes, entries) && |e| == ENTRY_SIZE && 32 * |entries| + 32 <= |bytes|
    ensures Lists(Write(bytes, 32 * |entries|, e), entries + [e])
  {
    var n := |entries|;
    var b := Write(bytes, 32 * n, e);
    forall i {:trigger SlotIs(b, i, (entries + [e])[i])} | 0 <= i < n + 1 ensures SlotIs(b, i, (entries + [e])[i]) {
      if i < n { assert SlotIs(bytes, i, entries[i]); }
    }
    forall i {:trigger SlotIs(b, i, Zeros(32))} | n + 1 <= i && 32 * i + 32 <= |b| ensures SlotIs(b, i, Zeros(32)) {
      assert SlotIs(bytes, i, Zeros(32));
      assert Slot(b, i) == Slot(bytes, i);
    }
  }

  /** What the tree may hold: names that fit, no empty file, and directories of one cluster. */
  predicate Writable(g: Geometry, n: Node, isRoot: bool) {
    && NameFits(n.name)
    && match n
       case File(_, _, data) => 0 < |data| < 0x1_0000_0000
       case Directory(_, _, kids) =>
         32 * (|kids| + Dots(isRoot)) <= g.ClusterSize()
         && forall i {:trigger Writable(g, kids[i], false)} :: 0 <= i < |kids| ==> Writable(g, kids[i], false)
  }

  // ---- Sizes and numbers of a tree ----

  function Count(n: Node): (r: nat)
    ensures r >= 1
  {
    match n
    case File(_, _, _) => 1
    case Directory(_, _, kids) => 1 + CountUpto(kids, |kids|)
  }

  function CountUpto(ns: seq<Node>, k: nat): nat
    requires k <= |ns|
    decreases ns, k
  {
    if k == 0 then 0 else CountUpto(ns, k - 1) + Count(ns[k - 1])
  }

  /** Clusters beyond the first of every file. */
  function Extra(g: Geometry, n: Node): nat
    requires g.sectorsPerCluster > 0
    decreases n
  {
    match n
    case File(_, _, data) => if data == [] then 0 else NeededBound(g, |data|, 0); Needed(g, |data|) - 1
    case Directory(_, _, kids) => ExtraUpto(g, kids, |kids|)
  }

  function ExtraUpto(g: Geometry, ns: seq<Node>, k: nat): nat
    requires g.sectorsPerCluster > 0 && k <= |ns|
    decreases ns, k
  {
    if k == 0 then 0 else ExtraUpto(g, ns, k - 1) + Extra(g, ns[k - 1])
  }

  lemma {:induction false} UptoGrows(g: Geometry, ns: seq<Node>, j: nat, k: nat)
    requires g.sectorsPerCluster > 0 && j <= k <= |ns|
    ensures CountUpto(ns, j) <= CountUpto(ns, k) && ExtraUpto(g, ns, j) <= ExtraUpto(g, ns, k)
    decreases k
  {
    if j < k { UptoGrows(g, ns, j, k - 1); }
  }

  /** The nodes below `n` are numbered in preorder from its own cluster on. */
  predicate InOrder(n: Node) {
    n.Directory? ==> forall i {:trigger InOrder(n.kids[i])} :: 0 <= i < |n.kids| ==>
      n.kids[i].cluster == n.cluster + 1 + CountUpto(n.kids, i) && InOrder(n.kids[i])
  }

  predicate AllInOrder(ns: seq<Node>, k: nat, c: nat) {
    k <= |ns| && forall i {:trigger KidInOrder(ns, c, i)} :: 0 <= i < k ==> KidInOrder(ns, c, i)
  }

  predicate KidInOrder(ns: seq<Node>, c: nat, i: nat) {
    i < |ns| && ns[i].cluster == c + CountUpto(ns, i) && InOrder(ns[i])
  }

  /** The same tree but for the clusters. */
  predicate SameTree(n: Node, m: Node)
    decreases n
  {
    match n
    case File(name, _, data) => m.File? && m.name == name && m.data == data
    case Directory(name, _, kids) =>
      m.Directory? && m.name == name && |m.kids| == |kids| && SameTrees(kids, m.kids, |kids|)
  }

  predicate SameTrees(ns: seq<Node>, ms: seq<Node>, k: nat)
    decreases ns, 1
  {
    k <= |ns| && k <= |ms| && forall i {:trigger SameKid(ns, ms, i)} :: 0 <= i < k ==> SameKid(ns, ms, i)
  }

  predicate SameKid(ns: seq<Node>, ms: seq<Node>, i: nat)
    decreases ns, 0
  {
    i < |ns| && i < |ms| && SameTree(ns[i], ms[i])
  }

  /** No node has a cluster yet. */
  predicate Fresh(n: Node) {
    n.cluster == 0 && (n.Directory? ==> forall i :: 0 <= i < |n.kids| ==> Fresh(n.kids[i]))
  }

  predicate AllWritable(g: Geometry, ns: seq<Node>) {
    forall i {:trigger Writable(g, ns[i], false)} :: 0 <= i < |ns| ==> Writable(g, ns[i], false)
  }

  /** Clusters matter neither to the counts nor to what may be written. */
  lemma {:induction false} SameTreeCounts(g: Geometry, n: Node, m: Node)
    requires g.sectorsPerCluster > 0 && SameTree(n, m)
    ensures Count(m) == Count(n) && Extra(g, m) == Extra(g, n)
    decreases n
  {
    if n.Directory? { SameTreesCount(g, n.kids, m.kids, |n.kids|); }
  }

  lemma {:induction false} SameTreesCount(g: Geometry, ns: seq<Node>, ms: seq<Node>, k: nat)
    requires g.sectorsPerCluster > 0 && SameTrees(ns, ms, k)
    ensures CountUpto(ms, k) == CountUpto(ns, k) && ExtraUpto(g, ms, k) == ExtraUpto(g, ns, k)
    decreases ns, k
  {
    if k > 0 {
      assert SameKid(ns, ms, k - 1);
      SameTreesCount(g, ns, ms, k - 1);
      SameTreeCounts(g, ns[k - 1], ms[k - 1]);
    }
  }

  lemma {:induction false} SameTreeWritable(g: Geometry, n: Node, m: Node, isRoot: bool)
    requires SameTree(n, m) && Writable(g, n, isRoot)
    ensures Writable(g, m, isRoot)
    decreases n
  {
    if n.Directory? {
      forall i | 0 <= i < |m.kids| ensures Writable(g, m.kids[i], false) {
        assert SameKid(n.kids, m.kids, i);
        SameTreeWritable(g, n.kids[i], m.kids[i], false);
      }
    }
  }

  // ---- The state between steps ----

  /** A node that has been written, with its parent's cluster. */
  datatype Placed = Placed(node: Node, parent: nat, isRoot: bool)

  type Chains = map<nat, Chain>

  ghost predicate On(chains: Chains, c: nat, x: nat) { c in chains && x in chains[c] }

  ghost predicate Spans(chains: Chains, lo: nat, hi: nat) {
    forall c {:trigger c in chains} :: c in chains <==> lo <= c < hi
  }

  ghost predicate ChainAt(g: Geometry, fat: seq<nat>, disk: Disk, next: nat, chains: Chains, c: nat) {
    && c in chains && Chained(fat, chains[c]) && chains[c][0] == c && AllOnDisk(g, disk, chains[c])
    && forall i {:trigger chains[c][i]} :: 0 <= i < |chains[c]| ==> chains[c][i] < next
  }

  /** The image holds the node: a file's bytes, or a directory's entries in a single cluster. */
  ghost predicate NodeAt(g: Geometry, fat: seq<nat>, disk: Disk, ch: Chain, p: Placed) {
    match p.node
    case File(_, _, data) => HoldsFile(g, fat, disk, ch, data)
    case Directory(_, c, kids) =>
      ch == [c] && OnDisk(g, disk, c) && Lists(ClusterAt(g, disk, c), Listing(kids, c, p.parent, p.isRoot))
  }

  ghost predicate PlacedAt(g: Geometry, fat: seq<nat>, disk: Disk, chains: Chains, written: map<nat, Placed>, c: nat) {
    c in written && c in chains && written[c].node.cluster == c && NodeAt(g, fat, disk, chains[c], written[c])
  }

  ghost predicate FreeFrom(fat: seq<nat>, next: nat) {
    forall x {:trigger fat[x]} :: next <= x < |fat| ==> fat[x] == FAT_FREE
  }

  /** No cluster lies on two chains. */
  ghost predicate Apart(chains: Chains) {
    forall c, d, x {:trigger On(chains, c, x), On(chains, d, x)} :: On(chains, c, x) && On(chains, d, x) ==> c == d
  }

  ghost predicate Fits(g: Geometry, disk: Disk, limit: nat) {
    g.Valid() && g.rootCluster < limit <= g.Entries() && OnDisk(g, disk, limit - 1)
  }

  /** What every step of the two passes keeps. */
  ghost predicate Good(g: Geometry, fat: seq<nat>, disk: Disk, limit: nat, next: nat, chains: Chains, written: map<nat, Placed>) {
    && Fits(g, disk, limit) && |fat| == g.Entries() && g.rootCluster < next <= limit
    && FreeFrom(fat, next) && Apart(chains)
    && (forall c {:trigger ChainAt(g, fat, disk, next, chains, c)} :: c in chains ==> ChainAt(g, fat, disk, next, chains, c))
    && (forall c {:trigger PlacedAt(g, fat, disk, chains, written, c)} ::
          c in written ==> PlacedAt(g, fat, disk, chains, written, c))
    && (forall c {:trigger Alone(chains, written, c)} :: Alone(chains, written, c))
  }

  /** A node not yet written has its first cluster only. */
  ghost predicate Alone(chains: Chains, written: map<nat, Placed>, c: nat) {
    c in chains && c !in written ==> chains[c] == [c]
  }

  /** The node and everything below it has been written. */
  ghost predicate Covers(written: map<nat, Placed>, n: Node, parent: nat, isRoot: bool) {
    && n.cluster in written && written[n.cluster] == Placed(n, parent, isRoot)
    && (n.Directory? ==> forall i {:trigger Covers(written, n.kids[i], n.cluster, false)} ::
          0 <= i < |n.kids| ==> Covers(written, n.kids[i], n.cluster, false))
  }

  ghost predicate Stays(written: map<nat, Placed>, written': map<nat, Placed>, c: nat) {
    c in written ==> c in written' && written'[c] == written[c]
  }

  ghost predicate Extends(written: map<nat, Placed>, written': map<nat, Placed>) {
    forall c {:trigger Stays(written, written', c)} :: Stays(written, written', c)
  }

  lemma {:induction false} CoversMore(written: map<nat, Placed>, written': map<nat, Placed>, n: Node, parent: nat, isRoot: bool)
    requires Covers(written, n, parent, isRoot) && Extends(written, written')
    ensures Covers(written', n, parent, isRoot)
  {
    assert Stays(written, written', n.cluster);
    if n.Directory? {
      forall i {:trigger Covers(written', n.kids[i], n.cluster, false)} | 0 <= i < |n.kids|
        ensures Covers(written', n.kids[i], n.cluster, false)
      {
        assert Covers(written, n.kids[i], n.cluster, false);
        CoversMore(written, written', n.kids[i], n.cluster, false);
      }
    }
  }

  /** Writing node `c` keeps all other chains and nodes. */
  lemma OthersKept(g: Geometry, fat: seq<nat>, disk: Disk, limit: nat, next: nat, chains: Chains, written: map<nat, Placed>,
                   fat': seq<nat>, disk': Disk, c: nat, d: nat)
    requires Good(g, fat, disk, limit, next, chains, written) && c in chains && d in chains && c != d
    requires Kept(g, fat, disk, fat', disk', next, c)
    ensures ChainAt(g, fat', disk', next, chains, d)
    ensures d in written ==> PlacedAt(g, fat', disk', chains, written, d)
  {
    assert ChainAt(g, fat, disk, next, chains, d);
    assert ChainAt(g, fat, disk, next, chains, c) && On(chains, c, c);
    var ch := chains[d];
    forall i {:trigger ch[i]} | 0 <= i < |ch| ensures 2 <= ch[i] < next && ch[i] != c {
      assert On(chains, d, ch[i]);
    }
    KeptChain(g, fat, disk, fat', disk', next, c, ch);
    if d in written {
      assert PlacedAt(g, fat, disk, chains, written, d);
      if written[d].node.Directory? {
        assert ch[0] == d && SameCluster(g, fat, disk, fat', disk', d);
      }
    }
  }

  lemma OnFrom(c: nat, lo: nat, k: nat, x: nat)
    requires x in ChainFrom(c, lo, k)
    ensures x == c || lo <= x
  {
  }

  lemma ApartStep(chains: Chains, c: nat, next: nat, k: nat)
    requires Apart(chains) && c in chains && c in chains[c] && k > 0
    requires forall d, x: nat {:trigger On(chains, d, x)} :: On(chains, d, x) ==> x < next
    ensures Apart(chains[c := ChainFrom(c, next, k)])
  {
    var chains' := chains[c := ChainFrom(c, next, k)];
    forall a, b, x {:trigger On(chains', a, x), On(chains', b, x)} | On(chains', a, x) && On(chains', b, x) ensures a == b {
      if a == c { OnFrom(c, next, k, x); }
      if b == c { OnFrom(c, next, k, x); }
      assert On(chains, c, c);
      if a != c { assert On(chains, a, x); }
      if b != c { assert On(chains, b, x); }
    }
  }

  lemma BelowNext(g: Geometry, fat: seq<nat>, disk: Disk, limit: nat, next: nat, chains: Chains, written: map<nat, Placed>)
    requires Good(g, fat, disk, limit, next, chains, written)
    ensures forall d, x: nat {:trigger On(chains, d, x)} :: On(chains, d, x) ==> x < next
  {
    forall d, x: nat {:trigger On(chains, d, x)} | On(chains, d, x) ensures x < next {
      assert ChainAt(g, fat, disk, next, chains, d);
      var i :| 0 <= i < |chains[d]| && chains[d][i] == x;
    }
  }

  lemma PlaceStep(g: Geometry, fat: seq<nat>, disk: Disk, limit: nat, next: nat, chains: Chains, written: map<nat, Placed>,
                  fat': seq<nat>, disk': Disk, next': nat, c: nat, k: nat, p: Placed)
    requires Good(g, fat, disk, limit, next, chains, written) && c in chains && c !in written && k > 0
    requires Kept(g, fat, disk, fat', disk', next, c) && |fat'| == |fat| && |disk'| == |disk|
    requires next' == next + k - 1 <= limit && FreeFrom(fat', next')
    requires p.node.cluster == c && Chained(fat', ChainFrom(c, next, k)) && AllOnDisk(g, disk', ChainFrom(c, next, k))
    requires NodeAt(g, fat', disk', ChainFrom(c, next, k), p)
    ensures Good(g, fat', disk', limit, next', chains[c := ChainFrom(c, next, k)], written[c := p])
  {
    var ch := ChainFrom(c, next, k);
    var chains', written' := chains[c := ch], written[c := p];
    assert ChainAt(g, fat, disk, next, chains, c);
    BelowNext(g, fat, disk, limit, next, chains, written);
    ApartStep(chains, c, next, k);
    assert On(chains, c, c);
    forall d {:trigger Alone(chains', written', d)} ensures Alone(chains', written', d) {
      assert Alone(chains, written, d);
    }
    forall d {:trigger ChainAt(g, fat', disk', next', chains', d)} | d in chains' ensures ChainAt(g, fat', disk', next', chains', d) {
      if d != c { OthersKept(g, fat, disk, limit, next, chains, written, fat', disk', c, d); }
    }
    forall d {:trigger PlacedAt(g, fat', disk', chains', written', d)} | d in written'
      ensures PlacedAt(g, fat', disk', chains', written', d)
    {
      if d != c {
        assert PlacedAt(g, fat, disk, chains, written, d);
        OthersKept(g, fat, disk, limit, next, chains, written, fat', disk', c, d);
      }
    }
  }

  // ---- Steps of single methods ----

  lemma SingleChain(c: nat, next: nat)
    ensures ChainFrom(c, next, 1) == [c]
  {
  }

  /** A freshly allocated cluster is a chain of its own. */
  lemma AllocStep(g: Geometry, fat: seq<nat>, disk: Disk, limit: nat, next: nat, chains: Chains, written: map<nat, Placed>)
    requires Good(g, fat, disk, limit, next, chains, written) && next < limit
    ensures next !in chains && next !in written
    ensures Good(g, fat[next := FAT_EOF], disk, limit, next + 1, chains[next := [next]], written)
  {
    var fat', chains' := fat[next := FAT_EOF], chains[next := [next]];
    BelowNext(g, fat, disk, limit, next, chains, written);
    assert next in written ==> PlacedAt(g, fat, disk, chains, written, next);
    assert next in chains ==> ChainAt(g, fat, disk, next, chains, next);
    OnDiskBelow(g, disk, next, limit - 1);
    forall a, b, x {:trigger On(chains', a, x), On(chains', b, x)} | On(chains', a, x) && On(chains', b, x) ensures a == b {
      if a != next { assert On(chains, a, x); }
      if b != next { assert On(chains, b, x); }
    }
    forall d {:trigger Alone(chains', written, d)} ensures Alone(chains', written, d) {
      assert Alone(chains, written, d);
    }
    forall d {:trigger ChainAt(g, fat', disk, next + 1, chains', d)} | d in chains' ensures ChainAt(g, fat', disk, next + 1, chains', d) {
      if d != next {
        assert ChainAt(g, fat, disk, next, chains, d);
        SameChain(fat, fat', next, chains[d]);
      }
    }
    forall d {:trigger PlacedAt(g, fat', disk, chains', written, d)} | d in written ensures PlacedAt(g, fat', disk, chains', written, d) {
      assert PlacedAt(g, fat, disk, chains, written, d) && ChainAt(g, fat, disk, next, chains, d);
      SameChain(fat, fat', next, chains[d]);
    }
  }

  lemma SameChain(fat: seq<nat>, fat': seq<nat>, next: nat, ch: Chain)
    requires Chained(fat, ch) && |fat'| == |fat|
    requires forall i {:trigger ch[i]} :: 0 <= i < |ch| ==> ch[i] < next
    requires forall x {:trigger fat'[x]} :: 0 <= x < next && x < |fat| ==> fat'[x] == fat[x]
    ensures Chained(fat', ch)
  {
    forall i {:trigger LinkAt(fat', ch, i)} | 0 <= i < |ch| - 1 ensures LinkAt(fat', ch, i) {
      assert LinkAt(fat, ch, i) && ch[i] < next;
    }
  }

  lemma KeptSelf(g: Geometry, fat: seq<nat>, disk: Disk, limit: nat, next: nat, c: nat)
    requires Fits(g, disk, limit) && next <= limit <= |fat|
    ensures Kept(g, fat, disk, fat, disk, next, c)
  {
    forall x {:trigger SameCluster(g, fat, disk, fat, disk, x)} | 2 <= x < next && x != c ensures SameCluster(g, fat, disk, fat, disk, x) {
      OnDiskBelow(g, disk, x, limit - 1);
    }
  }

  /** The links of a file's chain once `k` clusters are written. */
  ghost predicate Linked(fat: seq<nat>, c: nat, lo: nat, k: nat) {
    forall i {:trigger LinkAt(fat, ChainFrom(c, lo, k), i)} :: 0 <= i < k - 1 ==> LinkAt(fat, ChainFrom(c, lo, k), i)
  }

  lemma LinkStep(fat: seq<nat>, c: nat, lo: nat, k: nat)
    requires 0 < k && c < lo && lo + k <= |fat| + 1 && Linked(fat, c, lo, k)
    ensures var previous := ChainFrom(c, lo, k)[k - 1]; previous < |fat| && Linked(fat[previous := lo + k - 1], c, lo, k + 1)
  {
    var previous := ChainFrom(c, lo, k)[k - 1];
    var fat' := fat[previous := lo + k - 1];
    forall i {:trigger LinkAt(fat', ChainFrom(c, lo, k + 1), i)} | 0 <= i < k ensures LinkAt(fat', ChainFrom(c, lo, k + 1), i) {
      if i < k - 1 { assert LinkAt(fat, ChainFrom(c, lo, k), i); }
    }
  }

  lemma LinkedElsewhere(fat: seq<nat>, c: nat, lo: nat, k: nat, x: nat, v: nat)
    requires Linked(fat, c, lo, k) && x < |fat| && x >= lo + k - 1 && x != c
    ensures Linked(fat[x := v], c, lo, k)
  {
    var fat' := fat[x := v];
    forall i {:trigger LinkAt(fat', ChainFrom(c, lo, k), i)} | 0 <= i < k - 1 ensures LinkAt(fat', ChainFrom(c, lo, k), i) {
      assert LinkAt(fat, ChainFrom(c, lo, k), i);
    }
  }

  lemma LinkEnd(fat: seq<nat>, c: nat, lo: nat, k: nat)
    requires 0 < k && 2 <= c < lo && lo + k - 1 <= |fat| && Linked(fat, c, lo, k)
    ensures var previous := ChainFrom(c, lo, k)[k - 1];
      previous < |fat| && Chained(fat[previous := FAT_EOF], ChainFrom(c, lo, k))
  {
    var ch := ChainFrom(c, lo, k);
    var fat' := fat[ch[k - 1] := FAT_EOF];
    forall i {:trigger LinkAt(fat', ch, i)} | 0 <= i < |ch| - 1 ensures LinkAt(fat', ch, i) {
      assert LinkAt(fat, ch, i);
    }
  }

  /** A file's chain after `k` clusters, the last of them still without a successor. */
  ghost predicate Partial(g: Geometry, fat0: seq<nat>, disk0: Disk, lo: nat, c: nat, data: seq<Byte>, fat: seq<nat>, disk: Disk, k: nat) {
    && |fat| == |fat0| && |disk| == |disk0| && Linked(fat, c, lo, k)
    && AllOnDisk(g, disk, ChainFrom(c, lo, k)) && Flat(g, disk, ChainFrom(c, lo, k)) == Pad(data, k * g.ClusterSize())
    && Kept(g, fat0, disk0, fat, disk, lo, c)
  }

  function Nth(c: nat, lo: nat, k: nat): nat { if k == 0 then c else lo + k - 1 }

  /** The cluster the loop stands at is linked to its predecessor. */
  ghost function LinkedTo(fat: seq<nat>, c: nat, lo: nat, k: nat): seq<nat>
    requires k > 0 ==> Nth(c, lo, k - 1) < |fat|
  {
    if k == 0 then fat else fat[Nth(c, lo, k - 1) := Nth(c, lo, k)]
  }

  lemma PartialLink(g: Geometry, fat0: seq<nat>, disk0: Disk, lo: nat, c: nat, fat: seq<nat>, disk: Disk, k: nat)
    requires Linked(fat, c, lo, k) && Kept(g, fat0, disk0, fat, disk, lo, c) && c < lo && lo + k <= |fat| + 1
    ensures k > 0 ==> Nth(c, lo, k - 1) < |fat|
    ensures var fat' := LinkedTo(fat, c, lo, k); Linked(fat', c, lo, k + 1) && Kept(g, fat0, disk0, fat', disk, lo, c)
  {
    if k > 0 {
      LinkStep(fat, c, lo, k);
      KeptLink(g, fat0, disk0, fat, disk, lo, c, Nth(c, lo, k - 1), Nth(c, lo, k));
    }
  }

  lemma PartialWrite(g: Geometry, lo: nat, c: nat, data: seq<Byte>, disk: Disk, k: nat, m: nat)
    requires AllOnDisk(g, disk, ChainFrom(c, lo, k)) && Flat(g, disk, ChainFrom(c, lo, k)) == Pad(data, m)
    requires m == k * g.ClusterSize() <= |data| && 2 <= c < lo && OnDisk(g, disk, Nth(c, lo, k))
    ensures var disk' := Write(disk, g.ClusterOffset(Nth(c, lo, k)), Pad(data[m..], g.ClusterSize()));
      && AllOnDisk(g, disk', ChainFrom(c, lo, k + 1))
      && Flat(g, disk', ChainFrom(c, lo, k + 1)) == Pad(data, (k + 1) * g.ClusterSize())
  {
    PieceStep(g, disk, ChainFrom(c, lo, k), Nth(c, lo, k), data, m);
    ChainMore(c, lo, k);
    Pieces(k, k + 1, g.ClusterSize());
  }

  lemma PartialStep(g: Geometry, fat0: seq<nat>, disk0: Disk, lo: nat, c: nat, data: seq<Byte>, fat: seq<nat>, disk: Disk, k: nat, m: nat)
    requires Partial(g, fat0, disk0, lo, c, data, fat, disk, k) && m == k * g.ClusterSize() <= |data|
    requires 2 <= c < lo && lo + k <= |fat| + 1 && OnDisk(g, disk, Nth(c, lo, k))
    ensures k > 0 ==> Nth(c, lo, k - 1) < |fat|
    ensures Partial(g, fat0, disk0, lo, c, data, LinkedTo(fat, c, lo, k),
                    Write(disk, g.ClusterOffset(Nth(c, lo, k)), Pad(data[m..], g.ClusterSize())), k + 1)
  {
    PartialLink(g, fat0, disk0, lo, c, fat, disk, k);
    PartialWrite(g, lo, c, data, disk, k, m);
    KeptWrite(g, fat0, disk0, LinkedTo(fat, c, lo, k), disk, lo, c, Nth(c, lo, k), Pad(data[m..], g.ClusterSize()));
  }

  lemma PartialAlloc(g: Geometry, fat0: seq<nat>, disk0: Disk, lo: nat, c: nat, data: seq<Byte>, fat: seq<nat>, disk: Disk, k: nat)
    requires Partial(g, fat0, disk0, lo, c, data, fat, disk, k) && c < lo && k > 0 && lo + k - 1 < |fat|
    ensures Partial(g, fat0, disk0, lo, c, data, fat[lo + k - 1 := FAT_EOF], disk, k)
  {
    LinkedElsewhere(fat, c, lo, k, lo + k - 1, FAT_EOF);
    KeptLink(g, fat0, disk0, fat, disk, lo, c, lo + k - 1, FAT_EOF);
  }

  lemma PartialEnd(g: Geometry, fat0: seq<nat>, disk0: Disk, lo: nat, c: nat, data: seq<Byte>, fat: seq<nat>, disk: Disk, k: nat)
    requires Partial(g, fat0, disk0, lo, c, data, fat, disk, k) && 2 <= c < lo && k > 0 && lo + k - 1 <= |fat|
    requires g.sectorsPerCluster > 0 && k == Needed(g, |data|)
    ensures Nth(c, lo, k - 1) < |fat|
    ensures var fat' := fat[Nth(c, lo, k - 1) := FAT_EOF];
      HoldsFile(g, fat', disk, ChainFrom(c, lo, k), data) && Kept(g, fat0, disk0, fat', disk, lo, c)
  {
    NeededExact(g, |data|, k);
    LinkEnd(fat, c, lo, k);
    KeptLink(g, fat0, disk0, fat, disk, lo, c, Nth(c, lo, k - 1), FAT_EOF);
  }

  lemma {:induction false} CountFront(ns: seq<Node>, n: Node, k: nat)
    requires k <= |ns|
    ensures CountUpto(ns + [n], k) == CountUpto(ns, k)
    decreases k
  {
    if k > 0 { CountFront(ns, n, k - 1); }
  }

  lemma OneMoreInOrder(r: seq<Node>, kid: Node, c: nat)
    requires AllInOrder(r, |r|, c) && InOrder(kid) && kid.cluster == c + CountUpto(r, |r|)
    ensures AllInOrder(r + [kid], |r| + 1, c)
  {
    var r' := r + [kid];
    forall i {:trigger KidInOrder(r', c, i)} | 0 <= i < |r'| ensures KidInOrder(r', c, i) {
      CountFront(r, kid, i);
      if i < |r| { assert KidInOrder(r, c, i); }
    }
  }

  lemma OneMoreSame(ns: seq<Node>, r: seq<Node>, kid: Node)
    requires |r| < |ns| && SameTrees(ns, r, |r|) && SameTree(ns[|r|], kid)
    ensures SameTrees(ns, r + [kid], |r| + 1)
  {
    var r' := r + [kid];
    forall i {:trigger SameKid(ns, r', i)} | 0 <= i < |r'| ensures SameKid(ns, r', i) {
      if i < |r| { assert SameKid(ns, r, i); }
    }
  }

  lemma NumberedDirectory(n: Node, c: nat, kids: seq<Node>)
    requires n.Directory? && |kids| == |n.kids| && SameTrees(n.kids, kids, |n.kids|) && AllInOrder(kids, |kids|, c + 1)
    ensures SameTree(n, Directory(n.name, c, kids)) && InOrder(Directory(n.name, c, kids))
  {
    forall i | 0 <= i < |kids| ensures kids[i].cluster == c + 1 + CountUpto(kids, i) && InOrder(kids[i]) {
      assert KidInOrder(kids, c + 1, i);
    }
  }

  // ---- The FAT on the disk ----

  function FatBytes(fat: seq<nat>): (r: seq<Byte>)
    ensures |r| == 4 * |fat|
  {
    seq(4 * |fat|, k requires 0 <= k < 4 * |fat| => ByteOf(fat[k / 4], k % 4))
  }

  lemma FatWord(fat: seq<nat>, c: nat)
    requires c < |fat|
    ensures FatBytes(fat)[4 * c..4 * c + 4] == EncodeLe32(fat[c])
  {
    forall j | 0 <= j < 4 ensures FatBytes(fat)[4 * c + j] == ByteOf(fat[c], j) {
      assert (4 * c + j) / 4 == c && (4 * c + j) % 4 == j;
    }
  }

  /** The entry of cluster `c` in copy `i` of the table: 4 bytes, lowest first, at their place on the disk. */
  lemma CopyWord(g: Geometry, disk: Disk, fat: seq<nat>, i: nat, c: nat)
    requires CopyAt(g, disk, fat, i) && c < |fat|
    ensures var at := 512 * (g.lbaStart + g.reservedSectors) + i * (512 * g.fatSize) + 4 * c;
      && at + 4 <= |disk|
      && (disk[at] as int) + 0x100 * (disk[at + 1] as int) + 0x1_0000 * (disk[at + 2] as int) + 0x100_0000 * (disk[at + 3] as int)
         == fat[c] % 0x1_0000_0000
  {
    CopyPlace(g, i);
    CopyBytes(g, disk, fat, i, c);
    ByteOrder(fat[c]);
  }

  lemma CopyPlace(g: Geometry, i: nat)
    ensures CopyOffset(g, i) == 512 * (g.lbaStart + g.reservedSectors) + i * (512 * g.fatSize)
  {
    CopyOffsetExact(g, i);
    PlacesExact(g, 2);
    Commutes(g.fatSize, 512);
  }

  lemma CopyBytes(g: Geometry, disk: Disk, fat: seq<nat>, i: nat, c: nat)
    requires CopyAt(g, disk, fat, i) && c < |fat|
    ensures var at := CopyOffset(g, i) + 4 * c; at + 4 <= |disk| && disk[at..at + 4] == EncodeLe32(fat[c])
  {
    FatWord(fat, c);
    var at := CopyOffset(g, i);
    assert disk[at..at + 4 * |fat|][4 * c..4 * c + 4] == disk[at + 4 * c..at + 4 * c + 4];
  }

  /** Where copy `i` of the table begins. */
  function CopyOffset(g: Geometry, i: nat): nat {
    if i == 0 then g.FirstFat() else CopyOffset(g, i - 1) + g.fatSize * SECTOR
  }

  lemma {:induction false} CopyOffsetExact(g: Geometry, i: nat)
    ensures CopyOffset(g, i) == g.FirstFat() + i * (g.fatSize * SECTOR)
  {
    if i > 0 {
      CopyOffsetExact(g, i - 1);
      Pieces(i - 1, i, g.fatSize * SECTOR);
    }
  }

  lemma {:induction false} CopiesApart(g: Geometry, i: nat, j: nat)
    requires i < j
    ensures CopyOffset(g, i) + g.fatSize * SECTOR <= CopyOffset(g, j)
  {
    if i + 1 < j { CopiesApart(g, i, j - 1); }
  }

  lemma CopiesBeforeData(g: Geometry, i: nat)
    requires g.Valid() && i < g.fatCount
    ensures CopyOffset(g, i) + g.fatSize * SECTOR <= g.DataOffset()
  {
    CopiesApart(g, i, g.fatCount);
    CopyOffsetExact(g, g.fatCount);
    FatsEndAtData(g);
  }

  /** Copy `i` of the table on the disk. */
  ghost predicate CopyAt(g: Geometry, disk: Disk, fat: seq<nat>, i: nat) {
    && |fat| == g.Entries() && CopyOffset(g, i) + 4 * |fat| <= |disk|
    && Read(disk, CopyOffset(g, i), 4 * |fat|) == FatBytes(fat)
  }

  lemma CopyElsewhere(g: Geometry, fat: seq<nat>, disk: Disk, i: nat, j: nat)
    requires |fat| == g.Entries() && CopyOffset(g, i) + 4 * |fat| <= |disk| && j < i && CopyAt(g, disk, fat, j)
    ensures CopyAt(g, Write(disk, CopyOffset(g, i), FatBytes(fat)), fat, j)
  {
    CopiesApart(g, j, i);
    ReadElsewhere(disk, CopyOffset(g, i), FatBytes(fat), CopyOffset(g, j), 4 * |fat|);
  }

  lemma CopyKeeps(g: Geometry, fat: seq<nat>, disk0: Disk, disk: Disk, limit: nat, at: nat)
    requires |disk| == |disk0| && Kept(g, fat, disk0, fat, disk, limit, 0)
    requires at + 4 * |fat| <= g.DataOffset() <= |disk|
    ensures Kept(g, fat, disk0, fat, Write(disk, at, FatBytes(fat)), limit, 0)
  {
    var disk' := Write(disk, at, FatBytes(fat));
    forall x {:trigger SameCluster(g, fat, disk0, fat, disk', x)} | 2 <= x < limit && x != 0
      ensures SameCluster(g, fat, disk0, fat, disk', x)
    {
      assert SameCluster(g, fat, disk0, fat, disk, x);
      DataBeyond(g, x);
      ReadElsewhere(disk, at, FatBytes(fat), g.ClusterOffset(x), g.ClusterSize());
    }
  }

  ghost predicate Copies(g: Geometry, disk: Disk, fat: seq<nat>, n: nat) {
    forall i {:trigger CopyAt(g, disk, fat, i)} :: 0 <= i < n ==> CopyAt(g, disk, fat, i)
  }

  lemma CopyStep(g: Geometry, fat: seq<nat>, disk: Disk, i: nat)
    requires |fat| == g.Entries() && CopyOffset(g, i) + 4 * |fat| <= |disk| && Copies(g, disk, fat, i)
    ensures Copies(g, Write(disk, CopyOffset(g, i), FatBytes(fat)), fat, i + 1)
  {
    var disk' := Write(disk, CopyOffset(g, i), FatBytes(fat));
    forall j {:trigger CopyAt(g, disk', fat, j)} | 0 <= j < i + 1 ensures CopyAt(g, disk', fat, j) {
      if j < i {
        assert CopyAt(g, disk, fat, j);
        CopyElsewhere(g, fat, disk, i, j);
      } else {
        ReadWritten(disk, CopyOffset(g, i), FatBytes(fat));
      }
    }
  }

  lemma DataBeyond(g: Geometry, x: nat)
    requires x >= 2
    ensures g.DataOffset() <= g.ClusterOffset(x)
  {
  }

  /** The invariant does not depend on the disk outside the data area. */
  lemma GoodElsewhere(g: Geometry, fat: seq<nat>, disk: Disk, disk': Disk, limit: nat, next: nat, chains: Chains, written: map<nat, Placed>)
    requires Good(g, fat, disk, limit, next, chains, written) && |disk'| == |disk| && Kept(g, fat, disk, fat, disk', limit, 0)
    ensures Good(g, fat, disk', limit, next, chains, written)
  {
    forall c {:trigger ChainAt(g, fat, disk', next, chains, c)} | c in chains ensures ChainAt(g, fat, disk', next, chains, c) {
      assert ChainAt(g, fat, disk, next, chains, c);
      KeptChain(g, fat, disk, fat, disk', limit, 0, chains[c]);
    }
    forall c {:trigger PlacedAt(g, fat, disk', chains, written, c)} | c in written ensures PlacedAt(g, fat, disk', chains, written, c) {
      assert PlacedAt(g, fat, disk, chains, written, c) && ChainAt(g, fat, disk, next, chains, c);
      KeptChain(g, fat, disk, fat, disk', limit, 0, chains[c]);
      if written[c].node.Directory? {
        assert chains[c][0] == c && SameCluster(g, fat, disk, fat, disk', c);
      }
    }
  }

  class Writer {
    const g: Geometry
    const fat: array<nat>
    var next: nat
    var disk: Disk
    ghost const limit: nat
    ghost const size: nat
    ghost var chains: Chains
    ghost var written: map<nat, Placed>

    ghost predicate Valid()
      reads this, fat
    {
      Good(g, fat[..], disk, limit, next, chains, written) && |disk| == size
    }

    /** `fat32_table_init`, on an image with `limit` usable clusters. */
    constructor (g: Geometry, disk: Disk, ghost limit: nat)
      requires Fits(g, disk, limit)
      ensures Valid() && fresh(fat) && this.g == g && this.disk == disk && this.limit == limit && size == |disk| && written == map[]
      ensures next == g.rootCluster + 1 && Spans(chains, g.rootCluster, next)
      ensures fat[0] == 0xFFFF_FF00 + g.mediaDescriptor && fat[1] == 0x0FFF_FFFF && fat[g.rootCluster] == 0x0FFF_FFFF
    {
      this.g, this.disk, this.limit, this.size := g, disk, limit, |disk|;
      next, fat := g.rootCluster + 1, new nat[g.Entries()](_ => FAT_FREE);
      chains, written := map[g.rootCluster := [g.rootCluster]], map[];
      new;
      fat[0] := 0xFFFF_FF00 + g.mediaDescriptor;
      fat[1] := FAT_EOF;
      fat[g.rootCluster] := FAT_EOF;
      OnDiskBelow(g, disk, g.rootCluster, limit - 1);
      assert ChainAt(g, fat[..], disk, next, chains, g.rootCluster);
    }

    /** `fat32_table_flush`: every copy of the FAT, and nothing of the data area. */
    method Flush()
      requires Valid()
      modifies this`disk
      ensures Valid() && |disk| == |old(disk)| && Copies(g, disk, fat[..], g.fatCount)
    {
      var size, first := g.fatSize * SECTOR, g.FirstFat();
      ghost var disk0 := disk;
      KeptSelf(g, fat[..], disk, limit, limit, 0);
      OnDiskBelow(g, disk, 2, limit - 1);
      DataBeyond(g, 2);
      for i := 0 to g.fatCount
        invariant |disk| == |disk0| && Kept(g, fat[..], disk0, fat[..], disk, limit, 0) && Copies(g, disk, fat[..], i)
      {
        CopyOffsetExact(g, i);
        CopiesBeforeData(g, i);
        CopyKeeps(g, fat[..], disk0, disk, limit, CopyOffset(g, i));
        CopyStep(g, fat[..], disk, i);
        disk := Write(disk, first + i * size, FatBytes(fat[..]));
      }
      GoodElsewhere(g, fat[..], disk0, disk, limit, next, chains, written);
    }

    /** `fat32_cluster_alloc`: the lowest free entry at or above `next`, or 0. */
    method ClusterAlloc() returns (r: nat)
      requires next > 0
      modifies this`next, fat
      ensures r == 0 ==> next == old(next) && fat[..] == old(fat[..])
      ensures r == 0 ==> forall x {:trigger old(fat[x])} :: next <= x < fat.Length ==> old(fat[x]) != FAT_FREE
      ensures r != 0 ==> old(next) <= r < fat.Length && next == r + 1
      ensures r != 0 ==> old(fat[r]) == FAT_FREE && fat[..] == old(fat[..])[r := FAT_EOF]
      ensures r != 0 ==> forall x {:trigger old(fat[x])} :: old(next) <= x < r ==> old(fat[x]) != FAT_FREE
    {
      var i := next;
      while i < fat.Length
        invariant next == old(next) <= i && fat[..] == old(fat[..])
        invariant forall x {:trigger old(fat[x])} :: next <= x < i && x < fat.Length ==> old(fat[x]) != FAT_FREE
      {
        if fat[i] == FAT_FREE {
          fat[i] := FAT_EOF;
          next := i + 1;
          return i;
        }
        i := i + 1;
      }
      return 0;
    }

    /** On a good image the allocator hands out `next` itself. */
    method TakeNext() returns (r: nat)
      requires FreeFrom(fat[..], next) && 0 < next < fat.Length
      modifies this`next, fat
      ensures r == old(next) && next == r + 1 && fat[..] == old(fat[..])[r := FAT_EOF]
    {
      assert fat[..][next] == FAT_FREE;
      r := ClusterAlloc();
    }

    /** `fat32_write_cluster`. */
    method WriteOne(c: nat, buffer: seq<Byte>)
      requires OnDisk(g, disk, c) && |buffer| == g.ClusterSize()
      modifies this`disk
      ensures disk == Write(old(disk), g.ClusterOffset(c), buffer)
    {
      disk := Write(disk, g.ClusterOffset(c), buffer);
    }

    /** The first half of `fat32_prepare_tree`. */
    method AssignCluster(n: Node, isRoot: bool) returns (c: nat)
      requires Valid() && n.cluster == 0 && (isRoot ==> next == g.rootCluster + 1) && (!isRoot ==> next < limit)
      requires Spans(chains, g.rootCluster, next)
      modifies this`next, this`chains, fat
      ensures Valid() && c == (if isRoot then g.rootCluster else old(next)) && next == c + 1
      ensures Spans(chains, g.rootCluster, next)
    {
      c := n.cluster;
      if isRoot {
        c := g.rootCluster;
      } else if c == 0 {
        AllocStep(g, fat[..], disk, limit, next, chains, written);
        c := TakeNext();
        chains := chains[c := [c]];
      }
    }

    /** `fat32_prepare_tree`: numbers the nodes in preorder, each a chain of its own. */
    method Prepare(n: Node, isRoot: bool) returns (r: Node)
      requires Valid() && Fresh(n) && (isRoot ==> next == g.rootCluster + 1)
      requires next + Count(n) - (if isRoot then 1 else 0) <= limit
      requires Spans(chains, g.rootCluster, next)
      modifies this`next, this`chains, fat
      ensures Valid() && Spans(chains, g.rootCluster, next)
      ensures var first := if isRoot then g.rootCluster else old(next); r.cluster == first && next == first + Count(n)
      ensures SameTree(n, r) && InOrder(r)
      decreases n
    {
      var first := AssignCluster(n, isRoot);
      r := n.(cluster := first);
      if n.Directory? {
        var kids := PrepareKids(n.kids);
        NumberedDirectory(n, first, kids);
        r := r.(kids := kids);
      }
    }

    /** The loop over the children. */
    method PrepareKids(ns: seq<Node>) returns (r: seq<Node>)
      requires Valid() && (forall i :: 0 <= i < |ns| ==> Fresh(ns[i])) && next + CountUpto(ns, |ns|) <= limit
      requires Spans(chains, g.rootCluster, next)
      modifies this`next, this`chains, fat
      ensures Valid() && Spans(chains, g.rootCluster, next)
      ensures |r| == |ns| && SameTrees(ns, r, |ns|) && AllInOrder(r, |r|, old(next))
      ensures next == old(next) + CountUpto(ns, |ns|)
      decreases ns
    {
      r := [];
      var i := 0;
      while i < |ns|
        invariant i == |r| <= |ns| && Valid() && Spans(chains, g.rootCluster, next)
        invariant next == old(next) + CountUpto(ns, i)
        invariant SameTrees(ns, r, i) && AllInOrder(r, i, old(next))
      {
        UptoGrows(g, ns, i + 1, |ns|);
        SameTreesCount(g, ns, r, i);
        var kid := Prepare(ns[i], false);
        OneMoreInOrder(r, kid, old(next));
        OneMoreSame(ns, r, kid);
        r, i := r + [kid], i + 1;
      }
    }

    /** One round of that loop: link the cluster to its predecessor, then write it. */
    method WritePiece(cluster: nat, previous: nat, buffer: seq<Byte>,
                      ghost fat0: seq<nat>, ghost disk0: Disk, ghost lo: nat, ghost c: nat, ghost data: seq<Byte>, ghost k: nat)
      requires Partial(g, fat0, disk0, lo, c, data, fat[..], disk, k) && FreeFrom(fat[..], next)
      requires 2 <= c < lo && lo + k == next <= fat.Length
      requires cluster == Nth(c, lo, k) && previous == (if k == 0 then 0 else Nth(c, lo, k - 1)) && OnDisk(g, disk, cluster)
      requires g.sectorsPerCluster > 0 && 0 < Left(g, |data|, k) <= |data|
      requires buffer == Pad(data[|data| - Left(g, |data|, k)..], g.ClusterSize())
      modifies this`disk, fat
      ensures Partial(g, fat0, disk0, lo, c, data, fat[..], disk, k + 1) && FreeFrom(fat[..], next)
    {
      LeftExact(g, |data|, k);
      PartialStep(g, fat0, disk0, lo, c, data, fat[..], disk, k, k * g.ClusterSize());
      ghost var linked := LinkedTo(fat[..], c, lo, k);
      if previous != 0 {
        fat[previous] := cluster;
      }
      assert fat[..] == linked;
      WriteOne(cluster, buffer);
    }

    method TakeForChain(ghost fat0: seq<nat>, ghost disk0: Disk, ghost lo: nat, ghost c: nat, ghost data: seq<Byte>, ghost k: nat)
      returns (r: nat)
      requires Partial(g, fat0, disk0, lo, c, data, fat[..], disk, k) && FreeFrom(fat[..], next)
      requires 2 <= c < lo && k > 0 && next == lo + k - 1 < fat.Length
      modifies this`next, fat
      ensures Partial(g, fat0, disk0, lo, c, data, fat[..], disk, k) && FreeFrom(fat[..], next)
      ensures next == lo + k && r == Nth(c, lo, k)
    {
      PartialAlloc(g, fat0, disk0, lo, c, data, fat[..], disk, k);
      r := TakeNext();
    }

    method EndChain(previous: nat, ghost fat0: seq<nat>, ghost disk0: Disk, ghost lo: nat, ghost c: nat, ghost data: seq<Byte>, ghost k: nat)
      requires g.sectorsPerCluster > 0 && Partial(g, fat0, disk0, lo, c, data, fat[..], disk, k) && FreeFrom(fat[..], next)
      requires 2 <= c < lo && k > 0 && k == Needed(g, |data|) && previous == Nth(c, lo, k - 1) && next == lo + k - 1 <= fat.Length
      modifies fat
      ensures FreeFrom(fat[..], next)
      ensures HoldsFile(g, fat[..], disk, ChainFrom(c, lo, k), data) && Kept(g, fat0, disk0, fat[..], disk, lo, c)
    {
      PartialEnd(g, fat0, disk0, lo, c, data, fat[..], disk, k);
      fat[previous] := FAT_EOF;
    }

    /** Where the loop over the pieces of a file stands before piece `k` of `n`. */
    ghost predicate Standing(c: nat, lo: nat, k: nat, n: nat, size: nat, remaining: int, cluster: nat, previous: nat)
      reads this
    {
      && k <= n && (remaining > 0 <==> k < n) && remaining == Left(g, size, k) <= size
      && next == (if k < n then lo + k else lo + k - 1) && (k < n ==> cluster == Nth(c, lo, k))
      && previous == if k == 0 then 0 else Nth(c, lo, k - 1)
    }

    /** One round of that loop. */
    method WriteNext(data: seq<Byte>, cluster: nat, previous: nat, remaining: nat,
                     ghost fat0: seq<nat>, ghost disk0: Disk, ghost lo: nat, ghost c: nat, ghost k: nat) returns (to: nat, left: nat)
      requires Fits(g, disk, limit) && fat.Length == g.Entries() && 2 <= c < lo && lo + Needed(g, |data|) - 1 <= limit && remaining > 0
      requires Standing(c, lo, k, Needed(g, |data|), |data|, remaining, cluster, previous)
      requires Partial(g, fat0, disk0, lo, c, data, fat[..], disk, k) && FreeFrom(fat[..], next)
      modifies this`next, this`disk, fat
      ensures |disk| == |old(disk)| && Standing(c, lo, k + 1, Needed(g, |data|), |data|, left, to, cluster)
      ensures Partial(g, fat0, disk0, lo, c, data, fat[..], disk, k + 1) && FreeFrom(fat[..], next)
    {
      var cs, at := g.ClusterSize(), |data| - remaining;
      OnDiskBelow(g, disk, cluster, limit - 1);
      WritePiece(cluster, previous, Pad(data[at..], cs), fat0, disk0, lo, c, data, k);
      LeftExact(g, |data|, k + 1);
      left := remaining - (if remaining > cs then cs else remaining);
      to := cluster;
      if left > 0 {
        to := TakeForChain(fat0, disk0, lo, c, data, k + 1);
      }
    }

    /** The loop of `fat32_write_file`: the bytes of the chain and its links. */
    method WriteData(c: nat, data: seq<Byte>)
      requires Fits(g, disk, limit) && fat.Length == g.Entries() && 2 <= c < next && 0 < |data|
      requires next + Needed(g, |data|) - 1 <= limit && FreeFrom(fat[..], next)
      modifies this`next, this`disk, fat
      ensures |disk| == |old(disk)| && Needed(g, |data|) > 0
      ensures next == old(next) + Needed(g, |data|) - 1 && FreeFrom(fat[..], next)
      ensures HoldsFile(g, fat[..], disk, ChainFrom(c, old(next), Needed(g, |data|)), data)
      ensures Kept(g, old(fat[..]), old(disk), fat[..], disk, old(next), c)
    {
      var remaining, cluster, previous := |data|, c, 0;
      ghost var lo, k, n := next, 0, Needed(g, |data|);
      ghost var fat0, disk0 := fat[..], disk;
      NeededBound(g, |data|, 0);
      KeptSelf(g, fat0, disk0, limit, lo, c);
      while remaining > 0
        invariant Fits(g, disk, limit) && Standing(c, lo, k, n, |data|, remaining, cluster, previous)
        invariant Partial(g, fat0, disk0, lo, c, data, fat[..], disk, k) && FreeFrom(fat[..], next)
      {
        var to, left := WriteNext(data, cluster, previous, remaining, fat0, disk0, lo, c, k);
        previous, cluster, remaining := cluster, to, left;
        k := k + 1;
      }
      EndChain(previous, fat0, disk0, lo, c, data, k);
    }

    /** `fat32_write_file`. */
    method WriteFile(n: Node, ghost parent: nat)
      requires Valid() && n.File? && Writable(g, n, false) && n.cluster in chains && n.cluster !in written
      requires next + Extra(g, n) <= limit
      modifies this`next, this`disk, this`chains, this`written, fat
      ensures Valid() && next == old(next) + Extra(g, n)
      ensures written == old(written)[n.cluster := Placed(n, parent, false)]
      ensures Added(old(written), written, n.cluster, n.cluster + 1) && SameKeys(old(chains), chains)
      ensures chains == old(chains)[n.cluster := ChainFrom(n.cluster, old(next), Needed(g, |n.data|))]
    {
      var c := n.cluster;
      assert ChainAt(g, fat[..], disk, next, chains, c) && chains[c][0] == c;
      ghost var fat0, disk0, next0, k := fat[..], disk, next, Needed(g, |n.data|);
      WriteData(c, n.data);
      PlaceStep(g, fat0, disk0, limit, next0, chains, written, fat[..], disk, next, c, k, Placed(n, parent, false));
      AddedOne(written, c, Placed(n, parent, false));
      chains := chains[c := ChainFrom(c, next0, k)];
      written := written[c := Placed(n, parent, false)];
    }

    /** The two entries every directory but the root begins with. */
    method PutDots(cluster: nat, parent: nat, empty: seq<Byte>) returns (buffer: seq<Byte>)
      requires Lists(empty, []) && |empty| >= 64
      ensures |buffer| == |empty| && Lists(buffer, [DotEntry(cluster), DotDotEntry(parent)])
    {
      PutSlot(empty, [], DotEntry(cluster));
      buffer := Write(empty, 0, DotEntry(cluster));
      assert [] + [DotEntry(cluster)] == [DotEntry(cluster)];
      PutSlot(buffer, [DotEntry(cluster)], DotDotEntry(parent));
      buffer := Write(buffer, 32, DotDotEntry(parent));
      assert [DotEntry(cluster)] + [DotDotEntry(parent)] == [DotEntry(cluster), DotDotEntry(parent)];
    }

    /** The loop that makes the children's entries after the first `index`. */
    method PutKids(kids: seq<Node>, empty: seq<Byte>, start: nat, ghost all: seq<seq<Byte>>) returns (buffer: seq<Byte>)
      requires |all| == start + |kids| && 32 * |all| <= |empty| && Lists(empty, all[..start])
      requires KidEntries(kids, all, start)
      ensures |buffer| == |empty| && Lists(buffer, all)
    {
      buffer := empty;
      var i, index := 0, start;
      while i < |kids|
        invariant i <= |kids| && index == i + start && |buffer| == |empty| && Lists(buffer, all[..index])
      {
        assert KidEntry(kids, all, start, i);
        var e := CreateEntry(kids[i]);
        PutSlot(buffer, all[..index], e);
        assert all[..index] + [e] == all[..index + 1];
        buffer := Write(buffer, 32 * index, e);
        i, index := i + 1, index + 1;
      }
      assert all[..index] == all;
    }

    /** The bytes of a directory's cluster. */
    method DirectoryBytes(n: Node, parent: nat, isRoot: bool) returns (buffer: seq<Byte>)
      requires n.Directory? && Writable(g, n, isRoot)
      ensures |buffer| == g.ClusterSize() && Lists(buffer, Listing(n.kids, n.cluster, parent, isRoot))
    {
      buffer := Zeros(g.ClusterSize());
      ghost var all := Listing(n.kids, n.cluster, parent, isRoot);
      NothingListed(g.ClusterSize());
      ListingParts(g, n, parent, isRoot);
      ListingDots(n.kids, n.cluster, parent, isRoot);
      if !isRoot {
        buffer := PutDots(n.cluster, parent, buffer);
      }
      buffer := PutKids(n.kids, buffer, Dots(isRoot), all);
    }

    /** `fat32_write_directory`. */
    method WriteDirectory(n: Node, parent: nat, isRoot: bool)
      requires Valid() && n.Directory? && Writable(g, n, isRoot) && n.cluster in chains && n.cluster !in written
      modifies this`disk, this`written
      ensures Valid() && written == old(written)[n.cluster := Placed(n, parent, isRoot)]
      ensures Added(old(written), written, n.cluster, n.cluster + 1)
    {
      var c := n.cluster;
      assert ChainAt(g, fat[..], disk, next, chains, c) && chains[c][0] == c;
      assert Alone(chains, written, c);
      var buffer := DirectoryBytes(n, parent, isRoot);
      KeptSelf(g, fat[..], disk, limit, next, c);
      KeptWrite(g, fat[..], disk, fat[..], disk, next, c, c, buffer);
      WriteCluster(g, disk, c, buffer, c);
      SingleChain(c, next);
      ghost var disk0 := disk;
      WriteOne(c, buffer);
      PlaceStep(g, fat[..], disk0, limit, next, chains, written, fat[..], disk, next, c, 1, Placed(n, parent, isRoot));
      assert chains[c := ChainFrom(c, next, 1)] == chains;
      AddedOne(written, c, Placed(n, parent, isRoot));
      written := written[c := Placed(n, parent, isRoot)];
    }

    /** `fat32_write_tree`: writes exactly the nodes of the tree, and keeps all others. */
    method WriteTree(n: Node, parent: nat, isRoot: bool)
      requires Valid() && Writable(g, n, isRoot) && InOrder(n) && (isRoot ==> n.Directory?)
      requires Waiting(chains, written, n.cluster, n.cluster + Count(n)) && next + Extra(g, n) <= limit
      modifies this`next, this`disk, this`chains, this`written, fat
      ensures Valid() && SameKeys(old(chains), chains) && next == old(next) + Extra(g, n)
      ensures Added(old(written), written, n.cluster, n.cluster + Count(n)) && Covers(written, n, parent, isRoot)
      decreases n, 1
    {
      assert WaitingAt(chains, written, n.cluster);
      if n.File? {
        WriteFile(n, parent);
        return;
      }
      WriteDirectoryTree(n, parent, isRoot);
    }

    method WriteDirectoryTree(n: Node, parent: nat, isRoot: bool)
      requires Valid() && Writable(g, n, isRoot) && InOrder(n) && n.Directory?
      requires Waiting(chains, written, n.cluster, n.cluster + Count(n)) && next + Extra(g, n) <= limit
      requires n.cluster in chains && n.cluster !in written
      modifies this`next, this`disk, this`chains, this`written, fat
      ensures Valid() && SameKeys(old(chains), chains) && next == old(next) + Extra(g, n)
      ensures Added(old(written), written, n.cluster, n.cluster + Count(n)) && Covers(written, n, parent, isRoot)
      decreases n, 0
    {
      ghost var before, c := written, n.cluster;
      WriteDirectory(n, parent, isRoot);
      ghost var between := written;
      DirectoryParts(g, chains, before, between, n, isRoot);
      WriteKids(n.kids, n.cluster + 1, n.cluster);
      AddedMore(before, between, written, c, c + 1, c + Count(n));
      CoversDirectory(between, written, n, parent, isRoot);
    }

    /** The loop over the children. */
    method WriteKids(ns: seq<Node>, ghost first: nat, parent: nat)
      requires Valid() && AllWritable(g, ns) && AllInOrder(ns, |ns|, first)
      requires Waiting(chains, written, first, first + CountUpto(ns, |ns|)) && next + ExtraUpto(g, ns, |ns|) <= limit
      modifies this`next, this`disk, this`chains, this`written, fat
      ensures Valid() && SameKeys(old(chains), chains) && next == old(next) + ExtraUpto(g, ns, |ns|)
      ensures Added(old(written), written, first, first + CountUpto(ns, |ns|))
      ensures AllCovers(written, ns, |ns|, parent)
      decreases ns
    {
      var i := 0;
      while i < |ns|
        invariant i <= |ns| && Valid() && SameKeys(old(chains), chains)
        invariant next == old(next) + ExtraUpto(g, ns, i)
        invariant Waiting(chains, written, first + CountUpto(ns, i), first + CountUpto(ns, |ns|))
        invariant Added(old(written), written, first, first + CountUpto(ns, i))
        invariant AllCovers(written, ns, i, parent)
      {
        ghost var before, chains0 := written, chains;
        BeforeKid(g, chains, written, ns, i, first);
        WriteTree(ns[i], parent, false);
        AfterKid(old(chains), old(written), chains0, before, chains, written, ns, i, first, parent);
        i := i + 1;
      }
    }

    /** The two passes and the flush, on a new table. */
    method Fill(root: Node) returns (r: Node, ghost im: Record)
      requires Valid() && written == map[] && next == g.rootCluster + 1 && Spans(chains, g.rootCluster, next)
      requires root.Directory? && Fresh(root) && Writable(g, root, true) && limit == g.rootCluster + Total(g, root)
      modifies this`next, this`disk, this`chains, this`written, fat
      ensures SameTree(root, r) && InOrder(r) && ImageOf(g, disk, im, r)
      ensures im.fat == fat[..] && im.next == next == limit && |disk| == size
    {
      r := Prepare(root, true);
      SameTreeCounts(g, root, r);
      SameTreeWritable(g, root, r, true);
      AllWaiting(chains, g.rootCluster, next);
      WriteTree(r, 0, true);
      Flush();
      im := Record(fat[..], limit, next, chains, written);
    }
  }

  /** Clusters of the finished image. */
  function Total(g: Geometry, root: Node): nat
    requires g.sectorsPerCluster > 0
  {
    Count(root) + Extra(g, root)
  }

  ghost predicate AllCovers(written: map<nat, Placed>, ns: seq<Node>, i: nat, parent: nat) {
    i <= |ns| && forall k {:trigger Covers(written, ns[k], parent, false)} :: 0 <= k < i ==> Covers(written, ns[k], parent, false)
  }

  lemma AllCoversMore(written: map<nat, Placed>, written': map<nat, Placed>, ns: seq<Node>, i: nat, parent: nat)
    requires AllCovers(written, ns, i, parent) && Extends(written, written')
    requires i < |ns| && Covers(written', ns[i], parent, false)
    ensures AllCovers(written', ns, i + 1, parent)
  {
    forall k {:trigger Covers(written', ns[k], parent, false)} | 0 <= k < i + 1 ensures Covers(written', ns[k], parent, false) {
      if k < i { assert Covers(written, ns[k], parent, false); CoversMore(written, written', ns[k], parent, false); }
    }
  }

  lemma BeforeKid(g: Geometry, chains: Chains, written: map<nat, Placed>, ns: seq<Node>, i: nat, c: nat)
    requires g.sectorsPerCluster > 0 && AllInOrder(ns, |ns|, c) && i < |ns|
    requires Waiting(chains, written, c + CountUpto(ns, i), c + CountUpto(ns, |ns|))
    ensures ns[i].cluster == c + CountUpto(ns, i) && InOrder(ns[i])
    ensures CountUpto(ns, i + 1) == CountUpto(ns, i) + Count(ns[i]) <= CountUpto(ns, |ns|)
    ensures ExtraUpto(g, ns, i + 1) == ExtraUpto(g, ns, i) + Extra(g, ns[i]) <= ExtraUpto(g, ns, |ns|)
    ensures Waiting(chains, written, ns[i].cluster, ns[i].cluster + Count(ns[i]))
  {
    assert KidInOrder(ns, c, i);
    UptoGrows(g, ns, i + 1, |ns|);
    WaitingPart(chains, written, ns[i].cluster, ns[i].cluster + Count(ns[i]), c + CountUpto(ns, |ns|));
  }

  lemma AfterKid(keys: Chains, start: map<nat, Placed>, chains: Chains, before: map<nat, Placed>, chains': Chains, after: map<nat, Placed>,
                 ns: seq<Node>, i: nat, c: nat, parent: nat)
    requires i < |ns| && ns[i].cluster == c + CountUpto(ns, i)
    requires CountUpto(ns, i + 1) == CountUpto(ns, i) + Count(ns[i]) <= CountUpto(ns, |ns|)
    requires SameKeys(keys, chains) && SameKeys(chains, chains')
    requires Waiting(chains, before, c + CountUpto(ns, i), c + CountUpto(ns, |ns|))
    requires Added(start, before, c, c + CountUpto(ns, i)) && AllCovers(before, ns, i, parent)
    requires Added(before, after, ns[i].cluster, ns[i].cluster + Count(ns[i])) && Covers(after, ns[i], parent, false)
    ensures SameKeys(keys, chains') && Waiting(chains', after, c + CountUpto(ns, i + 1), c + CountUpto(ns, |ns|))
    ensures Added(start, after, c, c + CountUpto(ns, i + 1)) && AllCovers(after, ns, i + 1, parent)
  {
    var at, end := c + CountUpto(ns, i), c + CountUpto(ns, i + 1);
    SameKeysTwice(keys, chains, chains');
    WaitingRest(chains, before, chains', after, at, end, c + CountUpto(ns, |ns|));
    AddedMore(start, before, after, c, at, end);
    AllCoversMore(before, after, ns, i, parent);
  }

  lemma DirectoryParts(g: Geometry, chains: Chains, before: map<nat, Placed>, between: map<nat, Placed>, n: Node, isRoot: bool)
    requires g.sectorsPerCluster > 0 && n.Directory? && Writable(g, n, isRoot) && InOrder(n)
    requires Waiting(chains, before, n.cluster, n.cluster + Count(n)) && Added(before, between, n.cluster, n.cluster + 1)
    ensures AllWritable(g, n.kids) && AllInOrder(n.kids, |n.kids|, n.cluster + 1)
    ensures Waiting(chains, between, n.cluster + 1, n.cluster + 1 + CountUpto(n.kids, |n.kids|))
    ensures Count(n) == 1 + CountUpto(n.kids, |n.kids|) && Extra(g, n) == ExtraUpto(g, n.kids, |n.kids|)
  {
    WaitingRest(chains, before, chains, between, n.cluster, n.cluster + 1, n.cluster + Count(n));
    KidsInOrder(n, n.cluster + 1);
  }

  lemma KidsInOrder(n: Node, c: nat)
    requires n.Directory? && InOrder(n) && c == n.cluster + 1
    ensures AllInOrder(n.kids, |n.kids|, c)
  {
    forall i: nat {:trigger KidInOrder(n.kids, c, i)} | i < |n.kids| ensures KidInOrder(n.kids, c, i) {
      assert InOrder(n.kids[i]);
    }
  }

  lemma CoversDirectory(between: map<nat, Placed>, written: map<nat, Placed>, n: Node, parent: nat, isRoot: bool)
    requires n.Directory? && n.cluster in between && between[n.cluster] == Placed(n, parent, isRoot)
    requires Extends(between, written) && AllCovers(written, n.kids, |n.kids|, n.cluster)
    ensures Covers(written, n, parent, isRoot)
  {
    assert Stays(between, written, n.cluster);
  }

  ghost predicate Keyed(chains: Chains, x: nat) { x in chains }

  ghost predicate SameKeys(a: Chains, b: Chains) {
    forall x: nat {:trigger Keyed(a, x)} {:trigger Keyed(b, x)} :: Keyed(a, x) <==> Keyed(b, x)
  }

  lemma SameKeysTwice(a: Chains, b: Chains, c: Chains)
    requires SameKeys(a, b) && SameKeys(b, c)
    ensures SameKeys(a, c)
  {
  }

  ghost predicate WaitingAt(chains: Chains, written: map<nat, Placed>, x: nat) { x in chains && x !in written }

  /** The numbers in the range have a cluster each and are still to be written. */
  ghost predicate Waiting(chains: Chains, written: map<nat, Placed>, lo: nat, hi: nat) {
    forall x: nat {:trigger WaitingAt(chains, written, x)} :: lo <= x < hi ==> WaitingAt(chains, written, x)
  }

  /** The nodes numbered `lo` to `hi` were written, and no others. */
  ghost predicate Added(before: map<nat, Placed>, after: map<nat, Placed>, lo: nat, hi: nat) {
    && Extends(before, after)
    && forall x: nat {:trigger Stays(before, after, x)} ::
         Stays(before, after, x) && (x in after <==> x in before || lo <= x < hi)
  }

  lemma AddedOne(before: map<nat, Placed>, c: nat, p: Placed)
    requires c !in before
    ensures Added(before, before[c := p], c, c + 1)
  {
  }

  lemma AddedMore(a: map<nat, Placed>, b: map<nat, Placed>, c: map<nat, Placed>, lo: nat, mid: nat, hi: nat)
    requires Added(a, b, lo, mid) && Added(b, c, mid, hi) && lo <= mid <= hi
    ensures Added(a, c, lo, hi)
  {
    forall x: nat {:trigger Stays(a, c, x)} ensures Stays(a, c, x) && (x in c <==> x in a || lo <= x < hi) {
      assert Stays(a, b, x) && Stays(b, c, x);
    }
  }

  lemma WaitingRest(chains: Chains, before: map<nat, Placed>, chains': Chains, after: map<nat, Placed>, lo: nat, mid: nat, hi: nat)
    requires Waiting(chains, before, lo, hi) && Added(before, after, lo, mid) && lo <= mid <= hi && SameKeys(chains, chains')
    ensures Waiting(chains', after, mid, hi)
  {
    forall x: nat {:trigger WaitingAt(chains', after, x)} | mid <= x < hi ensures WaitingAt(chains', after, x) {
      assert WaitingAt(chains, before, x) && Stays(before, after, x);
      assert Keyed(chains, x) && Keyed(chains', x);
    }
  }

  lemma WaitingPart(chains: Chains, written: map<nat, Placed>, lo: nat, mid: nat, hi: nat)
    requires Waiting(chains, written, lo, hi) && lo <= mid <= hi
    ensures Waiting(chains, written, lo, mid)
  {
    forall x: nat {:trigger WaitingAt(chains, written, x)} | lo <= x < mid ensures WaitingAt(chains, written, x) {
    }
  }

  // ---- The whole run ----

  /** What the writer knows about an image besides its bytes. */
  datatype Record = Record(fat: seq<nat>, limit: nat, next: nat, chains: Chains, written: map<nat, Placed>)

  /** The disk is a finished image of the tree. */
  ghost predicate ImageOf(g: Geometry, disk: Disk, im: Record, root: Node) {
    && Good(g, im.fat, disk, im.limit, im.next, im.chains, im.written)
    && root.Directory? && root.cluster == g.rootCluster && Writable(g, root, true) && Covers(im.written, root, 0, true)
    && Copies(g, disk, im.fat, g.fatCount)
  }

  lemma AllWaiting(chains: Chains, lo: nat, hi: nat)
    requires Spans(chains, lo, hi)
    ensures Waiting(chains, map[], lo, hi)
  {
  }

  /** `main`, from the FAT on: any tree of non-empty files that fits ends up on the disk. */
  method MakeImage(g: Geometry, disk: Disk, root: Node) returns (w: Writer, r: Node, ghost im: Record)
    requires g.Valid() && root.Directory? && Fresh(root) && Writable(g, root, true)
    requires Fits(g, disk, g.rootCluster + Total(g, root))
    ensures SameTree(root, r) && InOrder(r) && ImageOf(g, w.disk, im, r)
    ensures im.fat == w.fat[..] && im.next == g.rootCluster + Total(g, root) && |w.disk| == |disk|
  {
    w := new Writer(g, disk, g.rootCluster + Total(g, root));
    r, im := w.Fill(root);
  }

  /** `n` is a node of the tree. */
  ghost predicate In(n: Node, t: Node) {
    n == t || (t.Directory? && exists i {:trigger In(n, t.kids[i])} :: 0 <= i < |t.kids| && In(n, t.kids[i]))
  }

  lemma {:induction false} CoveredNode(written: map<nat, Placed>, t: Node, parent: nat, isRoot: bool, n: Node)
    requires Covers(written, t, parent, isRoot) && In(n, t)
    ensures n.cluster in written && written[n.cluster].node == n
    decreases t
  {
    if n != t {
      var i :| 0 <= i < |t.kids| && In(n, t.kids[i]);
      assert Covers(written, t.kids[i], t.cluster, false);
      CoveredNode(written, t.kids[i], t.cluster, false, n);
    }
  }

  /**
   * Every node of a finished image has a strictly increasing chain from its first cluster to an
   * end mark, of one cluster for a directory and of as many as it needs for a file, and the
   * chains of two nodes share no cluster. What lies beyond them is free.
   */
  lemma ChainsOfImage(g: Geometry, disk: Disk, im: Record, root: Node, m: Node, n: Node)
    requires ImageOf(g, disk, im, root) && In(m, root) && In(n, root)
    ensures m.cluster in im.chains && n.cluster in im.chains && FreeFrom(im.fat, im.next)
    ensures var ch := im.chains[m.cluster];
      && Chained(im.fat, ch) && ch[0] == m.cluster
      && |ch| == (if m.File? then Needed(g, |m.data|) else 1)
    ensures m != n ==> (forall x: nat {:trigger On(im.chains, m.cluster, x)} :: On(im.chains, m.cluster, x) ==> !On(im.chains, n.cluster, x))
  {
    CoveredNode(im.written, root, 0, true, m);
    CoveredNode(im.written, root, 0, true, n);
    assert PlacedAt(g, im.fat, disk, im.chains, im.written, m.cluster);
    assert PlacedAt(g, im.fat, disk, im.chains, im.written, n.cluster);
    var a := im.chains[m.cluster];
    assert ChainAt(g, im.fat, disk, im.next, im.chains, m.cluster);
    if m.File? { NeededExact(g, |m.data|, |a|); }
  }
}

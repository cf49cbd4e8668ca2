/** Cluster chains: the linked lists in the FAT and the bytes they hold. */
module Fat32Chains {
  import opened PhysicalBytes
  import opened Fat32Layout
  import opened Fat32Entries

  type Chain = seq<nat>

  ghost predicate AllOnDisk(g: Geometry, disk: Disk, ch: Chain) {
    forall i {:trigger ch[i]} :: 0 <= i < |ch| ==> OnDisk(g, disk, ch[i])
  }

  /** The bytes of a chain's clusters, one after the other. */
  ghost function Flat(g: Geometry, disk: Disk, ch: Chain): (r: seq<Byte>)
    requires AllOnDisk(g, disk, ch)
    ensures |r| == |ch| * g.ClusterSize()
  {
    if ch == [] then [] else
      var front := ch[..|ch| - 1];
      assert |ch| * g.ClusterSize() == |front| * g.ClusterSize() + g.ClusterSize();
      Flat(g, disk, front) + ClusterAt(g, disk, ch[|ch| - 1])
  }

  lemma FlatAppend(g: Geometry, disk: Disk, ch: Chain, c: nat)
    requires AllOnDisk(g, disk, ch) && OnDisk(g, disk, c)
    ensures AllOnDisk(g, disk, ch + [c]) && Flat(g, disk, ch + [c]) == Flat(g, disk, ch) + ClusterAt(g, disk, c)
  {
    assert (ch + [c])[..|ch|] == ch;
  }

  lemma {:induction false} FlatSame(g: Geometry, disk: Disk, disk': Disk, ch: Chain)
    requires AllOnDisk(g, disk, ch) && AllOnDisk(g, disk', ch)
    requires forall i {:trigger ch[i]} :: 0 <= i < |ch| ==> ClusterAt(g, disk', ch[i]) == ClusterAt(g, disk, ch[i])
    ensures Flat(g, disk', ch) == Flat(g, disk, ch)
  {
    if ch != [] { FlatSame(g, disk, disk', ch[..|ch| - 1]); }
  }

  lemma Pieces(k: nat, n: nat, cs: nat)
    requires k < n
    ensures (k + 1) * cs == k * cs + cs <= n * cs
  {
    var m := n - k - 1;
    assert n * cs == k * cs + cs + m * cs;
  }

  /** The k-th cluster of a chain is the k-th piece of its bytes. */
  lemma {:induction false} FlatPiece(g: Geometry, disk: Disk, ch: Chain, k: nat)
    requires AllOnDisk(g, disk, ch) && k < |ch|
    ensures 0 <= k * g.ClusterSize() <= (k + 1) * g.ClusterSize() <= |Flat(g, disk, ch)|
    ensures Flat(g, disk, ch)[k * g.ClusterSize()..(k + 1) * g.ClusterSize()] == ClusterAt(g, disk, ch[k])
  {
    var front, cs := ch[..|ch| - 1], g.ClusterSize();
    Pieces(k, |ch|, cs);
    if k < |front| {
      Pieces(k, |front|, cs);
      FlatPiece(g, disk, front, k);
      var f, c := Flat(g, disk, front), ClusterAt(g, disk, ch[|ch| - 1]);
      assert (f + c)[k * cs..(k + 1) * cs] == f[k * cs..(k + 1) * cs];
    }
  }

  // ---- Links in the FAT ----

  ghost predicate LinkAt(fat: seq<nat>, ch: Chain, i: nat) {
    i + 1 < |ch| && ch[i] < ch[i + 1] && ch[i] < |fat| && fat[ch[i]] == ch[i + 1]
  }

  /** Strictly increasing, linked, and ended by the end-of-file mark. */
  ghost predicate Chained(fat: seq<nat>, ch: Chain) {
    && |ch| > 0
    && (forall i {:trigger ch[i]} :: 0 <= i < |ch| ==> 2 <= ch[i] < |fat|)
    && (forall i {:trigger LinkAt(fat, ch, i)} :: 0 <= i < |ch| - 1 ==> LinkAt(fat, ch, i))
    && fat[ch[|ch| - 1]] == FAT_EOF
  }

  /** The entry of every cluster but the last is the next one, and that of the last 0x0FFFFFFF. */
  lemma ChainWord(fat: seq<nat>, ch: Chain, i: nat)
    requires Chained(fat, ch) && i < |ch|
    ensures ch[i] < |fat| && fat[ch[i]] == if i + 1 < |ch| then ch[i + 1] else 0x0FFF_FFFF
    ensures i + 1 < |ch| ==> ch[i] < ch[i + 1]
  {
    if i + 1 < |ch| { assert LinkAt(fat, ch, i); }
  }

  ghost predicate SameCluster(g: Geometry, fat: seq<nat>, disk: Disk, fat': seq<nat>, disk': Disk, x: nat) {
    && x < |fat| == |fat'| && fat'[x] == fat[x]
    && OnDisk(g, disk, x) && OnDisk(g, disk', x) && ClusterAt(g, disk', x) == ClusterAt(g, disk, x)
  }

  /** Nothing about the clusters below `bound`, other than `c`, has changed. */
  ghost predicate Kept(g: Geometry, fat: seq<nat>, disk: Disk, fat': seq<nat>, disk': Disk, bound: nat, c: nat) {
    forall x {:trigger SameCluster(g, fat, disk, fat', disk', x)} ::
      2 <= x < bound && x != c ==> SameCluster(g, fat, disk, fat', disk', x)
  }

  lemma KeptChain(g: Geometry, fat: seq<nat>, disk: Disk, fat': seq<nat>, disk': Disk, bound: nat, c: nat, ch: Chain)
    requires Kept(g, fat, disk, fat', disk', bound, c) && AllOnDisk(g, disk, ch) && Chained(fat, ch)
    requires forall i {:trigger ch[i]} :: 0 <= i < |ch| ==> 2 <= ch[i] < bound && ch[i] != c
    ensures AllOnDisk(g, disk', ch) && Chained(fat', ch) && Flat(g, disk', ch) == Flat(g, disk, ch)
  {
    forall i {:trigger ch[i]} | 0 <= i < |ch| ensures SameCluster(g, fat, disk, fat', disk', ch[i]) {
      assert 2 <= ch[i] < bound;
    }
    FlatSame(g, disk, disk', ch);
    forall i {:trigger LinkAt(fat', ch, i)} | 0 <= i < |ch| - 1 ensures LinkAt(fat', ch, i) {
      assert LinkAt(fat, ch, i);
      assert SameCluster(g, fat, disk, fat', disk', ch[i]);
    }
  }

  // ---- The chain of a file ----

  /** The first `m` bytes of `data`, followed by zeros where it is shorter. */
  function Pad(data: seq<Byte>, m: nat): (r: seq<Byte>)
    ensures |r| == m
  {
    if m <= |data| then data[..m] else data + Zeros(m - |data|)
  }

  lemma PadMore(data: seq<Byte>, m: nat, n: nat)
    requires m <= |data|
    ensures Pad(data, m) + Pad(data[m..], n) == Pad(data, m + n)
  {
  }

  /** A chain that goes on from `c` with the clusters from `lo` on. */
  function ChainFrom(c: nat, lo: nat, k: nat): (r: Chain)
    ensures |r| == k
  {
    seq(k, i requires 0 <= i < k => if i == 0 then c else lo + i - 1)
  }

  lemma ChainMore(c: nat, lo: nat, k: nat)
    ensures ChainFrom(c, lo, k + 1) == ChainFrom(c, lo, k) + [if k == 0 then c else lo + k - 1]
  {
  }

  /** The chain holds the file: as many clusters as it needs, its bytes, and zeros after them. */
  ghost predicate HoldsFile(g: Geometry, fat: seq<nat>, disk: Disk, ch: Chain, data: seq<Byte>) {
    && Chained(fat, ch) && AllOnDisk(g, disk, ch)
    && |data| <= |ch| * g.ClusterSize() < |data| + g.ClusterSize()
    && Flat(g, disk, ch) == Pad(data, |ch| * g.ClusterSize())
  }

  /** Clusters for `size` bytes. */
  function Needed(g: Geometry, size: nat): nat
    requires g.sectorsPerCluster > 0
  {
    if size == 0 then 0
    else if size <= g.ClusterSize() then 1
    else 1 + Needed(g, size - g.ClusterSize())
  }

  /** The number is the size divided by that of a cluster, rounded up. */
  lemma {:induction false} NeededBound(g: Geometry, size: nat, k: nat)
    requires g.sectorsPerCluster > 0
    ensures k * g.ClusterSize() < size <==> k < Needed(g, size)
  {
    var cs := g.ClusterSize();
    if k > 0 {
      Pieces(k - 1, k, cs);
      if size > cs { NeededBound(g, size - cs, k - 1); }
      Pieces(0, k, cs);
    }
  }

  lemma NeededExact(g: Geometry, size: nat, k: nat)
    requires g.sectorsPerCluster > 0 && k > 0
    ensures size <= k * g.ClusterSize() < size + g.ClusterSize() <==> k == Needed(g, size)
  {
    NeededBound(g, size, k);
    NeededBound(g, size, k - 1);
    Pieces(k - 1, k, g.ClusterSize());
  }

  /** What is left of `size` bytes after `k` clusters. */
  function Left(g: Geometry, size: nat, k: nat): nat {
    if k == 0 then size
    else if Left(g, size, k - 1) > g.ClusterSize() then Left(g, size, k - 1) - g.ClusterSize()
    else 0
  }

  lemma {:induction false} LeftExact(g: Geometry, size: nat, k: nat)
    requires g.sectorsPerCluster > 0
    ensures Left(g, size, k) > 0 <==> k < Needed(g, size)
    ensures Left(g, size, k) > 0 ==> Left(g, size, k) == size - k * g.ClusterSize()
  {
    NeededBound(g, size, k);
    if k > 0 {
      LeftExact(g, size, k - 1);
      Pieces(k - 1, k, g.ClusterSize());
    }
  }

  /** Writing the next piece to a fresh cluster extends the chain's bytes. */
  lemma PieceStep(g: Geometry, disk: Disk, ch: Chain, x: nat, data: seq<Byte>, m: nat)
    requires AllOnDisk(g, disk, ch) && OnDisk(g, disk, x) && m == |ch| * g.ClusterSize() <= |data|
    requires forall i {:trigger ch[i]} :: 0 <= i < |ch| ==> ch[i] != x
    requires Flat(g, disk, ch) == Pad(data, m)
    ensures var disk' := Write(disk, g.ClusterOffset(x), Pad(data[m..], g.ClusterSize()));
      AllOnDisk(g, disk', ch + [x]) && Flat(g, disk', ch + [x]) == Pad(data, m + g.ClusterSize())
  {
    var piece := Pad(data[m..], g.ClusterSize());
    var disk' := Write(disk, g.ClusterOffset(x), piece);
    forall i {:trigger ch[i]} | 0 <= i < |ch|
      ensures OnDisk(g, disk', ch[i]) && ClusterAt(g, disk', ch[i]) == ClusterAt(g, disk, ch[i])
    {
      WriteCluster(g, disk, x, piece, ch[i]);
    }
    WriteCluster(g, disk, x, piece, x);
    FlatSame(g, disk, disk', ch);
    FlatAppend(g, disk', ch, x);
    PadMore(data, m, g.ClusterSize());
  }

  lemma KeptWrite(g: Geometry, fat: seq<nat>, disk: Disk, fat': seq<nat>, disk': Disk, bound: nat, c: nat, x: nat, bytes: seq<Byte>)
    requires Kept(g, fat, disk, fat', disk', bound, c) && OnDisk(g, disk', x) && |bytes| == g.ClusterSize()
    requires x == c || x >= bound
    ensures Kept(g, fat, disk, fat', Write(disk', g.ClusterOffset(x), bytes), bound, c)
  {
    var disk'' := Write(disk', g.ClusterOffset(x), bytes);
    forall y {:trigger SameCluster(g, fat, disk, fat', disk'', y)} | 2 <= y < bound && y != c
      ensures SameCluster(g, fat, disk, fat', disk'', y)
    {
      assert SameCluster(g, fat, disk, fat', disk', y);
      WriteCluster(g, disk', x, bytes, y);
    }
  }

  lemma KeptLink(g: Geometry, fat: seq<nat>, disk: Disk, fat': seq<nat>, disk': Disk, bound: nat, c: nat, x: nat, v: nat)
    requires Kept(g, fat, disk, fat', disk', bound, c) && x < |fat'| && (x == c || x >= bound)
    ensures Kept(g, fat, disk, fat'[x := v], disk', bound, c)
  {
    var fat'' := fat'[x := v];
    forall y {:trigger SameCluster(g, fat, disk, fat'', disk', y)} | 2 <= y < bound && y != c
      ensures SameCluster(g, fat, disk, fat'', disk', y)
    {
      assert SameCluster(g, fat, disk, fat', disk', y);
    }
  }
}

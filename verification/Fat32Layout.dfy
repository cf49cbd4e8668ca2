/**
 * The layout shared by the image writer (`tools/mkimage/fat32.c`) and the boot loader's
 * reader (`bootloader/x86/stage2/stage2.asm`): where clusters and FAT entries lie on the disk.
 */
module Fat32Layout {
  import opened PhysicalBytes

  const SECTOR: nat := 512
  const WORD: nat := 0x1_0000_0000
  const FAT_FREE: nat := 0
  const FAT_EOF: nat := 0x0FFF_FFFF
  const FAT_BAD: nat := 0x0FFF_FFF7
  const ENTRY_SIZE: nat := 32
  const NAME_LEN: nat := 11

  type Disk = seq<Byte>

  /** The boot sector's parameters that matter, with the partition's start from the MBR. */
  datatype Geometry = Geometry(
    lbaStart: nat, hiddenSectors: nat, sectorsPerCluster: nat, reservedSectors: nat,
    fatCount: nat, fatSize: nat, rootCluster: nat, mediaDescriptor: nat)
  {
    ghost predicate Valid() {
      && hiddenSectors == lbaStart && 1 <= sectorsPerCluster < 256 && fatCount >= 1 && rootCluster >= 2
      && mediaDescriptor < 256 && rootCluster < Entries() <= FAT_BAD
    }

    function ClusterSize(): nat { SECTOR * sectorsPerCluster }

    /** Number of 32-bit entries in one FAT. */
    function Entries(): nat { fatSize * 128 }

    // As the writer computes them, in bytes.

    function FirstFat(): nat { lbaStart * SECTOR + reservedSectors * SECTOR }
    function DataOffset(): nat { lbaStart * SECTOR + (reservedSectors + fatCount * fatSize) * SECTOR }
    function ClusterOffset(c: nat): nat requires c >= 2 { DataOffset() + (c - 2) * ClusterSize() }

    // As the reader computes them, in sectors and in 32-bit registers (`stage2_init`, `fat32_cluster_to_lba`).

    function FatStartLba(): nat { (hiddenSectors + reservedSectors) % WORD }
    function DataStartLba(): nat { (FatStartLba() + fatSize * fatCount % WORD) % WORD }
    function ClusterToLba(c: nat): nat requires c >= 2 { ((c - 2) * sectorsPerCluster % WORD + DataStartLba()) % WORD }
  }

  /** In sectors of 512 bytes: the FATs after the reserved sectors, the data after the FATs, clusters from number 2 on. */
  lemma PlacesExact(g: Geometry, c: nat)
    requires c >= 2
    ensures g.ClusterSize() == 512 * g.sectorsPerCluster && g.Entries() == 512 * g.fatSize / 4
    ensures g.FirstFat() == 512 * (g.lbaStart + g.reservedSectors)
    ensures g.ClusterOffset(c) == 512 * (g.lbaStart + g.reservedSectors + g.fatCount * g.fatSize) + (c - 2) * (512 * g.sectorsPerCluster)
  {
  }

  lemma FatsEndAtData(g: Geometry)
    ensures g.FirstFat() + g.fatCount * (g.fatSize * SECTOR) == g.DataOffset()
  {
    assert (g.fatCount * g.fatSize) * SECTOR == g.fatCount * (g.fatSize * SECTOR);
  }

  lemma NoWrap(a: nat, b: nat, c: nat)
    requires a + b + c < WORD
    ensures (c % WORD + (a % WORD + b % WORD) % WORD) % WORD == a + b + c && a % WORD == a
  {
  }

  /** Writer and reader mean the same place, as far as 32-bit sector numbers reach. */
  lemma SamePlace(g: Geometry, c: nat)
    requires g.Valid() && c >= 2 && g.ClusterOffset(c) < WORD * SECTOR
    ensures g.ClusterToLba(c) * SECTOR == g.ClusterOffset(c) && g.FatStartLba() * SECTOR == g.FirstFat()
  {
    var a, b, d := g.hiddenSectors + g.reservedSectors, g.fatSize * g.fatCount, (c - 2) * g.sectorsPerCluster;
    Commutes(g.fatSize, g.fatCount);
    SectorsOfClusters(c - 2, g.sectorsPerCluster);
    assert (a + b + d) * SECTOR == g.ClusterOffset(c);
    NoWrap(a, b, d);
  }

  lemma Commutes(x: nat, y: nat)
    ensures x * y == y * x
  {
  }

  lemma SectorsOfClusters(n: nat, spc: nat)
    ensures (n * spc) * SECTOR == n * (SECTOR * spc)
  {
  }

  /** Distinct clusters do not overlap. */
  lemma ClustersApart(g: Geometry, c: nat, d: nat)
    requires 2 <= c < d
    ensures g.ClusterOffset(c) + g.ClusterSize() <= g.ClusterOffset(d)
  {
    var n := d - c - 1;
    assert (d - 2) * g.ClusterSize() == (c - 2) * g.ClusterSize() + g.ClusterSize() + n * g.ClusterSize();
  }

  // ---- Reading and writing stretches of the disk ----

  function Write(disk: Disk, off: nat, bytes: seq<Byte>): (r: Disk)
    requires off + |bytes| <= |disk|
    ensures |r| == |disk|
  {
    disk[..off] + bytes + disk[off + |bytes|..]
  }

  function Read(disk: Disk, off: nat, n: nat): (r: seq<Byte>)
    requires off + n <= |disk|
    ensures |r| == n
  {
    disk[off..off + n]
  }

  lemma ReadWritten(disk: Disk, off: nat, bytes: seq<Byte>)
    requires off + |bytes| <= |disk|
    ensures Read(Write(disk, off, bytes), off, |bytes|) == bytes
  {
  }

  lemma ReadElsewhere(disk: Disk, off: nat, bytes: seq<Byte>, a: nat, n: nat)
    requires off + |bytes| <= |disk| && a + n <= |disk| && (a + n <= off || off + |bytes| <= a)
    ensures Read(Write(disk, off, bytes), a, n) == Read(disk, a, n)
  {
  }

  /** The cluster lies wholly on the disk. */
  ghost predicate OnDisk(g: Geometry, disk: Disk, c: nat) {
    c >= 2 && g.ClusterOffset(c) + g.ClusterSize() <= |disk|
  }

  ghost function ClusterAt(g: Geometry, disk: Disk, c: nat): (r: seq<Byte>)
    requires OnDisk(g, disk, c)
    ensures |r| == g.ClusterSize()
  {
    Read(disk, g.ClusterOffset(c), g.ClusterSize())
  }

  /** Writing one cluster changes that cluster only. */
  lemma WriteCluster(g: Geometry, disk: Disk, c: nat, bytes: seq<Byte>, d: nat)
    requires OnDisk(g, disk, c) && OnDisk(g, disk, d) && |bytes| == g.ClusterSize()
    ensures var disk' := Write(disk, g.ClusterOffset(c), bytes);
      OnDisk(g, disk', d) && ClusterAt(g, disk', d) == if d == c then bytes else ClusterAt(g, disk, d)
  {
    if d == c {
      ReadWritten(disk, g.ClusterOffset(c), bytes);
    } else {
      if c < d { ClustersApart(g, c, d); } else { ClustersApart(g, d, c); }
      ReadElsewhere(disk, g.ClusterOffset(c), bytes, g.ClusterOffset(d), g.ClusterSize());
    }
  }

  lemma OnDiskBelow(g: Geometry, disk: Disk, c: nat, d: nat)
    requires OnDisk(g, disk, d) && 2 <= c <= d
    ensures OnDisk(g, disk, c)
  {
    if c < d { ClustersApart(g, c, d); }
  }
}

/**
 * The boot loader's FAT32 reader (`bootloader/x86/stage2/stage2.asm`): next clusters, directory
 * look-up and file loading, on a disk whose chains end.
 */
module Fat32Reader {
  import opened PhysicalBytes
  import opened Fat32Layout
  import opened Fat32Entries
  import opened Fat32Chains
  import opened Fat32Writer

  /** A disk that 32-bit sector numbers reach. */
  ghost predicate Readable(g: Geometry, disk: Disk) {
    g.Valid() && g.DataOffset() < |disk| <= WORD * SECTOR
  }

  /** `disk_read_lba`, which is taken to succeed on the disk. */
  function Sectors(disk: Disk, lba: nat, n: nat): (r: seq<Byte>)
    requires lba * SECTOR + n * SECTOR <= |disk|
    ensures |r| == n * SECTOR
  {
    Read(disk, lba * SECTOR, n * SECTOR)
  }

  // ---- The FAT ----

  /** The successor of a cluster, without the four reserved bits. */
  function NextOf(g: Geometry, disk: Disk, c: nat): nat
    requires c < g.Entries() && g.FirstFat() + 4 * g.Entries() <= |disk|
  {
    Le32(disk, g.FirstFat() + 4 * c) % 0x1000_0000
  }

  lemma FatOnDisk(g: Geometry, disk: Disk)
    requires Readable(g, disk)
    ensures g.FirstFat() + 4 * g.Entries() <= |disk| && g.FatStartLba() * SECTOR == g.FirstFat()
  {
    SamePlace(g, 2);
    FatsEndAtData(g);
    Pieces(0, g.fatCount, g.fatSize * SECTOR);
  }

  /** `fat32_read_fat_entry` */
  method ReadFatEntry(g: Geometry, disk: Disk, c: nat) returns (v: nat)
    requires Readable(g, disk) && c < g.Entries()
    ensures g.FirstFat() + 4 * g.Entries() <= |disk| && v == NextOf(g, disk, c)
  {
    FatOnDisk(g, disk);
    EntryRead(g, disk, c);
    var buf := Sectors(disk, EntrySector(g, c), 1);
    v := Le32(buf, 4 * (c % 128)) % 0x1000_0000;
  }

  /** The sector with the entry of cluster `c`; there are 128 entries in a sector. */
  function EntrySector(g: Geometry, c: nat): nat { (c / 128 + g.FatStartLba()) % WORD }

  /** The entry lies in the sector that is read, and no sector number wraps around. */
  lemma EntryPlace(g: Geometry, disk: Disk, c: nat)
    requires Readable(g, disk) && c < g.Entries() && g.FatStartLba() * SECTOR == g.FirstFat()
    requires g.FirstFat() + 4 * g.Entries() <= |disk|
    ensures EntrySector(g, c) * SECTOR + SECTOR <= |disk|
    ensures EntrySector(g, c) * SECTOR + 4 * (c % 128) == g.FirstFat() + 4 * c
  {
    var q, r, s := c / 128, c % 128, g.FatStartLba();
    Sector128(c, g.fatSize);
    assert (q + s) * SECTOR + SECTOR <= s * SECTOR + 4 * (g.fatSize * 128) <= |disk|;
    InWord(q + s);
  }

  lemma Sector128(c: nat, n: nat)
    requires c < n * 128
    ensures c == 128 * (c / 128) + c % 128 && c / 128 < n
  {
  }

  lemma InWord(x: nat)
    requires x < WORD
    ensures x % WORD == x
  {
  }

  lemma EntryRead(g: Geometry, disk: Disk, c: nat)
    requires Readable(g, disk) && c < g.Entries() && g.FatStartLba() * SECTOR == g.FirstFat()
    requires g.FirstFat() + 4 * g.Entries() <= |disk|
    ensures EntrySector(g, c) * SECTOR + SECTOR <= |disk|
    ensures Le32(Sectors(disk, EntrySector(g, c), 1), 4 * (c % 128)) == Le32(disk, g.FirstFat() + 4 * c)
  {
    EntryPlace(g, disk, c);
    SameLe32(disk, EntrySector(g, c) * SECTOR, SECTOR, 4 * (c % 128));
  }

  lemma SameLe32(disk: Disk, off: nat, n: nat, i: nat)
    requires off + n <= |disk| && i + 4 <= n
    ensures Le32(Read(disk, off, n), i) == Le32(disk, off + i)
  {
  }

  ghost predicate StepAt(g: Geometry, disk: Disk, ch: Chain, i: nat) {
    && i < |ch| && ch[i] < g.Entries() && g.FirstFat() + 4 * g.Entries() <= |disk|
    && (i + 1 < |ch| ==> NextOf(g, disk, ch[i]) == ch[i + 1] < FAT_BAD)
  }

  /** A chain on the disk that ends with the mark `stop`. */
  ghost predicate DiskChain(g: Geometry, disk: Disk, ch: Chain, stop: nat) {
    && Readable(g, disk) && |ch| > 0 && AllOnDisk(g, disk, ch)
    && (forall i {:trigger StepAt(g, disk, ch, i)} :: 0 <= i < |ch| ==> StepAt(g, disk, ch, i))
    && StepAt(g, disk, ch, |ch| - 1) && NextOf(g, disk, ch[|ch| - 1]) == stop >= FAT_BAD
  }

  // ---- Loading ----

  /** What 16-bit `SI` advances by for one cluster. */
  function Stride(g: Geometry): nat {
    if g.ClusterSize() < 0x1_0000 then g.ClusterSize() else g.ClusterSize() - 0x1_0000
  }

  /** The loader adds the low 16 bits of the cluster size. */
  lemma StrideIsLowHalf(g: Geometry)
    requires g.Valid()
    ensures Stride(g) == g.ClusterSize() % 0x1_0000
  {
  }

  /** Memory after the clusters have been stored one after the other, `Stride` bytes apart. */
  ghost function Stored(g: Geometry, disk: Disk, ram: seq<Byte>, at: nat, ch: Chain): (r: seq<Byte>)
    requires AllOnDisk(g, disk, ch) && at + |ch| * g.ClusterSize() <= |ram|
    ensures |r| == |ram|
    decreases |ch|
  {
    if ch == [] then ram else
      Pieces(0, |ch|, g.ClusterSize());
      Pieces(|ch| - 1, |ch|, g.ClusterSize());
      Stored(g, disk, Write(ram, at, ClusterAt(g, disk, ch[0])), at + Stride(g), ch[1..])
  }

  /** Where the pointer stands after `n` clusters. */
  function EndOf(g: Geometry, at: nat, n: nat): nat
    decreases n
  {
    if n == 0 then at else EndOf(g, at + Stride(g), n - 1)
  }

  lemma {:induction false} EndExact(g: Geometry, at: nat, n: nat)
    ensures EndOf(g, at, n) == at + n * Stride(g)
    decreases n
  {
    if n > 0 {
      EndExact(g, at + Stride(g), n - 1);
      Pieces(n - 1, n, Stride(g));
    }
  }

  lemma {:induction false} FlatFirst(g: Geometry, disk: Disk, ch: Chain)
    requires AllOnDisk(g, disk, ch) && |ch| > 0
    ensures Flat(g, disk, ch) == ClusterAt(g, disk, ch[0]) + Flat(g, disk, ch[1..])
    decreases |ch|
  {
    var front, last := ch[..|ch| - 1], ch[|ch| - 1];
    if |ch| > 1 {
      FlatFirst(g, disk, front);
      assert front[1..] == ch[1..][..|ch| - 2];
    }
  }

  lemma WriteTwice(ram: seq<Byte>, at: nat, a: seq<Byte>, b: seq<Byte>)
    requires at + |a| + |b| <= |ram|
    ensures Write(Write(ram, at, a), at + |a|, b) == Write(ram, at, a + b)
  {
  }

  /** With clusters below 64 KiB the bytes end up in one piece. */
  lemma {:induction false} StoredWhole(g: Geometry, disk: Disk, ram: seq<Byte>, at: nat, ch: Chain)
    requires AllOnDisk(g, disk, ch) && at + |ch| * g.ClusterSize() <= |ram| && g.sectorsPerCluster < 128
    ensures Stored(g, disk, ram, at, ch) == Write(ram, at, Flat(g, disk, ch))
    decreases |ch|
  {
    if ch != [] {
      Pieces(0, |ch|, g.ClusterSize());
      Pieces(|ch| - 1, |ch|, g.ClusterSize());
      var first := ClusterAt(g, disk, ch[0]);
      StoredWhole(g, disk, Write(ram, at, first), at + Stride(g), ch[1..]);
      FlatFirst(g, disk, ch);
      WriteTwice(ram, at, first, Flat(g, disk, ch[1..]));
    }
  }

  lemma {:induction false} StoredBeyond(g: Geometry, disk: Disk, ram: seq<Byte>, at: nat, ch: Chain, x: nat)
    requires AllOnDisk(g, disk, ch) && at + |ch| * g.ClusterSize() <= |ram| && at + |ch| * g.ClusterSize() <= x < |ram|
    ensures Stored(g, disk, ram, at, ch)[x] == ram[x]
    decreases |ch|
  {
    if ch != [] {
      Pieces(0, |ch|, g.ClusterSize());
      Pieces(|ch| - 1, |ch|, g.ClusterSize());
      StoredBeyond(g, disk, Write(ram, at, ClusterAt(g, disk, ch[0])), at + Stride(g), ch[1..], x);
    }
  }

  /** Memory holds the bytes of the chain from `at` on. */
  ghost predicate Loads(g: Geometry, disk: Disk, ram: seq<Byte>, at: nat, ch: Chain)
    requires AllOnDisk(g, disk, ch) && at + |ch| * g.ClusterSize() <= |ram|
  {
    Read(Stored(g, disk, ram, at, ch), at, |ch| * g.ClusterSize()) == Flat(g, disk, ch)
  }

  lemma LastByteKept(g: Geometry, disk: Disk, ram: seq<Byte>, at: nat, ch: Chain)
    requires g.Valid() && AllOnDisk(g, disk, ch) && |ch| > 1 && at + |ch| * g.ClusterSize() <= |ram| && g.sectorsPerCluster >= 128
    ensures at + |ch| * g.ClusterSize() - 1 >= 0
    ensures Stored(g, disk, ram, at, ch)[at + |ch| * g.ClusterSize() - 1] == ram[at + |ch| * g.ClusterSize() - 1]
  {
    Pieces(0, |ch|, g.ClusterSize());
    Pieces(1, |ch|, g.ClusterSize());
    Pieces(|ch| - 1, |ch|, g.ClusterSize());
    StoredBeyond(g, disk, Write(ram, at, ClusterAt(g, disk, ch[0])), at + Stride(g), ch[1..], at + |ch| * g.ClusterSize() - 1);
  }

  /** The loader puts a chain into memory in every case exactly if clusters stay below 64 KiB or there is but one. */
  lemma LoadExact(g: Geometry, disk: Disk, size: nat, at: nat, ch: Chain)
    requires g.Valid() && AllOnDisk(g, disk, ch) && |ch| > 0 && at + |ch| * g.ClusterSize() <= size
    ensures (forall ram: seq<Byte> {:trigger Loads(g, disk, ram, at, ch)} :: |ram| == size ==> Loads(g, disk, ram, at, ch))
      <==> g.sectorsPerCluster < 128 || |ch| == 1
  {
    var n := |ch| * g.ClusterSize();
    if g.sectorsPerCluster < 128 {
      forall ram: seq<Byte> {:trigger Loads(g, disk, ram, at, ch)} | |ram| == size ensures Loads(g, disk, ram, at, ch) {
        StoredWhole(g, disk, ram, at, ch);
        ReadWritten(ram, at, Flat(g, disk, ch));
      }
    } else if |ch| == 1 {
      forall ram: seq<Byte> {:trigger Loads(g, disk, ram, at, ch)} | |ram| == size ensures Loads(g, disk, ram, at, ch) {
        FlatFirst(g, disk, ch);
        assert Flat(g, disk, ch) == ClusterAt(g, disk, ch[0]);
        ReadWritten(ram, at, ClusterAt(g, disk, ch[0]));
      }
    } else {
      Pieces(0, |ch|, g.ClusterSize());
      var last: Byte := if Flat(g, disk, ch)[n - 1] == 0 then 1 else 0;
      var ram: seq<Byte> := seq(size, _ => last);
      LastByteKept(g, disk, ram, at, ch);
      assert Read(Stored(g, disk, ram, at, ch), at, n)[n - 1] == last;
      assert !Loads(g, disk, ram, at, ch);
    }
  }

  /** A partition with clusters of 64 KiB. */
  const WIDE: Geometry := Geometry(2048, 2048, 128, 32, 2, 1, 2, 0xF8)

  /** On a disk of zeros, a file of two such clusters does not arrive in memory that holds anything else. */
  lemma WideLoadFails(disk: Disk, ram: seq<Byte>)
    requires |disk| == 2400 * SECTOR && forall i :: 0 <= i < |disk| ==> disk[i] == 0
    requires |ram| == 0x10_0000 && forall i :: 0 <= i < |ram| ==> ram[i] == 1
    ensures WIDE.Valid() && AllOnDisk(WIDE, disk, [2, 3]) && 0x1_0000 + 2 * WIDE.ClusterSize() <= |ram|
    ensures !Loads(WIDE, disk, ram, 0x1_0000, [2, 3])
  {
    var ch, at, n := [2, 3], 0x1_0000, 2 * WIDE.ClusterSize();
    LastByteKept(WIDE, disk, ram, at, ch);
    assert Flat(WIDE, disk, ch)[n - 1] == ClusterAt(WIDE, disk, 3)[WIDE.ClusterSize() - 1] == 0;
    assert Read(Stored(WIDE, disk, ram, at, ch), at, n)[n - 1] == 1;
  }

  /** One round of the loader. */
  lemma StoredNext(g: Geometry, disk: Disk, ram: seq<Byte>, at: nat, ch: Chain, k: nat)
    requires g.Valid() && k < |ch| && AllOnDisk(g, disk, ch[k..]) && at + (|ch| - k) * g.ClusterSize() <= 0x10_0000 <= |ram|
    ensures OnDisk(g, disk, ch[k]) && at + g.ClusterSize() <= 0x10_0000 && AllOnDisk(g, disk, ch[k + 1..])
    ensures k + 1 < |ch| ==> at + Stride(g) < 0x10_0000
    ensures at + Stride(g) + (|ch| - (k + 1)) * g.ClusterSize() <= 0x10_0000
    ensures Stored(g, disk, ram, at, ch[k..]) == Stored(g, disk, Write(ram, at, ClusterAt(g, disk, ch[k])), at + Stride(g), ch[k + 1..])
    ensures k + 1 == |ch| ==> Stored(g, disk, ram, at, ch[k..]) == Write(ram, at, ClusterAt(g, disk, ch[k]))
  {
    var rest, cs := ch[k..], g.ClusterSize();
    assert rest[0] == ch[k] && rest[1..] == ch[k + 1..];
    Pieces(0, |rest|, cs);
    Pieces(|rest| - 1, |rest|, cs);
    if k + 1 < |ch| { Pieces(0, |rest| - 1, cs); }
  }

  ghost predicate StillToStore(g: Geometry, disk: Disk, ram: seq<Byte>, at: nat, ch: Chain, k: nat, goal: seq<Byte>, after: nat) {
    && g.Valid() && k <= |ch| && AllOnDisk(g, disk, ch[k..]) && |ram| >= 0x10_0000
    && at + (|ch| - k) * g.ClusterSize() <= 0x10_0000
    && Stored(g, disk, ram, at, ch[k..]) == goal && EndOf(g, at, |ch| - k) == after
  }

  lemma StoreOne(g: Geometry, disk: Disk, ram: seq<Byte>, at: nat, ch: Chain, k: nat, goal: seq<Byte>, after: nat)
    requires k < |ch| && StillToStore(g, disk, ram, at, ch, k, goal, after)
    ensures OnDisk(g, disk, ch[k]) && at + g.ClusterSize() <= 0x10_0000 <= |ram|
    ensures k + 1 < |ch| ==> at + Stride(g) < 0x10_0000
    ensures var ram' := Write(ram, at, ClusterAt(g, disk, ch[k]));
      if k + 1 < |ch| then StillToStore(g, disk, ram', at + Stride(g), ch, k + 1, goal, after) else ram' == goal && after == at + Stride(g)
  {
    StoredNext(g, disk, ram, at, ch, k);
  }

  class Loader {
    const g: Geometry
    const disk: Disk
    var ram: seq<Byte>
    var es: nat
    var si: nat

    ghost predicate Valid()
      reads this
    {
      Readable(g, disk) && es < 0x1_0000 && si < 0x1_0000
    }

    constructor (g: Geometry, disk: Disk, ram: seq<Byte>, es: nat, si: nat)
      requires Readable(g, disk) && es < 0x1_0000 && si < 0x1_0000
      ensures Valid() && this.g == g && this.disk == disk && this.ram == ram && this.es == es && this.si == si
    {
      this.g, this.disk, this.ram, this.es, this.si := g, disk, ram, es, si;
    }

    /** `stage2_read_cluster` */
    method ReadCluster(c: nat)
      requires Valid() && OnDisk(g, disk, c) && 16 * es + si + g.ClusterSize() <= |ram|
      modifies this`ram
      ensures ram == Write(old(ram), 16 * es + si, ClusterAt(g, disk, c))
    {
      SamePlace(g, c);
      assert g.sectorsPerCluster * SECTOR == g.ClusterSize();
      ram := Write(ram, 16 * es + si, Sectors(disk, g.ClusterToLba(c), g.sectorsPerCluster));
    }

    /** The pointer moves on, into the next 64 KiB segment when `SI` overflows. */
    method Advance()
      requires Valid() && 16 * es + si <= 0x10_0000
      modifies this`es, this`si
      ensures Valid()
      ensures 16 * old(es) + old(si) + Stride(g) < 0x10_0000 ==> 16 * es + si == 16 * old(es) + old(si) + Stride(g)
    {
      var sum := si + Stride(g);
      if sum < 0x1_0000 {
        si := sum;
      } else {
        si := sum - 0x1_0000;
        es := if es + 0x1000 < 0x1_0000 then es + 0x1000 else es + 0x1000 - 0x1_0000;
      }
    }

    /** The clusters of the chain from the k-th on are still to be stored. */
    ghost predicate Pending(ch: Chain, k: nat, goal: seq<Byte>, after: nat)
      reads this
    {
      Valid() && StillToStore(g, disk, ram, 16 * es + si, ch, k, goal, after)
    }

    /** The first half of a round of `fat32_load_file`. */
    method LoadOne(cluster: nat, ghost ch: Chain, ghost k: nat, ghost goal: seq<Byte>, ghost after: nat)
      requires k < |ch| && cluster == ch[k] && Pending(ch, k, goal, after)
      modifies this`ram, this`es, this`si
      ensures Valid() && (k + 1 < |ch| ==> Pending(ch, k + 1, goal, after)) && (k + 1 == |ch| ==> ram == goal)
      ensures k + 1 == |ch| && after < 0x10_0000 ==> 16 * es + si == after
    {
      StoreOne(g, disk, ram, 16 * es + si, ch, k, goal, after);
      ReadCluster(cluster);
      Advance();
    }

    /** `fat32_load_file`: fails exactly on a bad cluster, and stores every cluster of the chain. */
    method LoadFile(first: nat, ghost ch: Chain, ghost stop: nat) returns (ok: bool)
      requires Valid() && DiskChain(g, disk, ch, stop) && ch[0] == first
      requires 16 * es + si + |ch| * g.ClusterSize() <= 0x10_0000 <= |ram|
      modifies this`ram, this`es, this`si
      ensures Valid() && (ok <==> stop != 0x0FFF_FFF7)
      ensures ram == Stored(g, disk, old(ram), 16 * old(es) + old(si), ch)
      ensures var after := EndOf(g, 16 * old(es) + old(si), |ch|); after < 0x10_0000 ==> 16 * es + si == after
    {
      var cluster := first;
      ghost var k, goal, after := 0, Stored(g, disk, ram, 16 * es + si, ch), EndOf(g, 16 * es + si, |ch|);
      assert ch[0..] == ch;
      while true
        invariant 0 <= k < |ch| && cluster == ch[k] && Pending(ch, k, goal, after)
        decreases |ch| - k
      {
        LoadOne(cluster, ch, k, goal, after);
        assert StepAt(g, disk, ch, k);
        var next := ReadFatEntry(g, disk, cluster);
        if next == FAT_BAD {
          return false;
        }
        if next >= 0x0FFF_FFF8 {
          return true;
        }
        cluster, k := next, k + 1;
      }
    }
  }

  // ---- Looking up a name ----

  /** The first byte 0 marks the end of a directory. */
  predicate Ends(e: seq<Byte>) requires |e| == ENTRY_SIZE { e[0] == 0 }

  /** Neither end, nor deleted, nor a long name, nor a volume label, and of the name looked for. */
  predicate Matches(e: seq<Byte>, name: seq<Byte>)
    requires |e| == ENTRY_SIZE
  {
    e[0] != 0 && e[0] != 0xE5 && EntryAttr(e) != 0x0F && EntryAttr(e) / 8 % 2 == 0 && EntryName(e) == name
  }

  ghost predicate Passed(bytes: seq<Byte>, name: seq<Byte>, i: nat) {
    32 * i + 32 <= |bytes| && !Ends(Slot(bytes, i)) && !Matches(Slot(bytes, i), name)
  }

  ghost predicate PassedAll(bytes: seq<Byte>, name: seq<Byte>, n: nat) {
    forall i {:trigger Passed(bytes, name, i)} :: 0 <= i < n ==> Passed(bytes, name, i)
  }

  datatype Found = Entry(bytes: seq<Byte>) | Missing

  /** The first matching entry before the end of the directory, if there is one. */
  ghost predicate Finds(bytes: seq<Byte>, name: seq<Byte>, r: Found, i: nat) {
    && PassedAll(bytes, name, i)
    && match r
       case Entry(e) => SlotIs(bytes, i, e) && |e| == ENTRY_SIZE && Matches(e, name)
       case Missing => 32 * i == |bytes| || (32 * i + 32 <= |bytes| && Ends(Slot(bytes, i)))
  }

  /**
   * Entry `at` of the directory is the first that is not deleted (0xE5), no part of a long name (attribute 0x0F), no volume
   * label (bit 3) and has the name; before it no entry begins with 0.  Missing means that the directory ends there.
   */
  ghost predicate FirstOf(bytes: seq<Byte>, name: seq<Byte>, r: Found, at: nat) {
    && (forall i: nat {:trigger bytes[32 * i]} :: i < at ==>
          && 32 * i + 32 <= |bytes| && bytes[32 * i] != 0
          && (bytes[32 * i] == 0xE5 || bytes[32 * i + 11] == 0x0F || bytes[32 * i + 11] / 8 % 2 == 1 || bytes[32 * i..32 * i + 11] != name))
    && match r
       case Entry(e) =>
         && 32 * at + 32 <= |bytes| && e == bytes[32 * at..32 * at + 32]
         && e[0] != 0 && e[0] != 0xE5 && e[11] != 0x0F && e[11] / 8 % 2 == 0 && e[..11] == name
       case Missing => 32 * at == |bytes| || (32 * at + 32 <= |bytes| && bytes[32 * at] == 0)
  }

  lemma FindsFirst(bytes: seq<Byte>, name: seq<Byte>, r: Found, at: nat)
    requires Finds(bytes, name, r, at)
    ensures FirstOf(bytes, name, r, at)
  {
    forall i: nat {:trigger bytes[32 * i]} | i < at
      ensures 32 * i + 32 <= |bytes| && bytes[32 * i] != 0
      ensures bytes[32 * i] == 0xE5 || bytes[32 * i + 11] == 0x0F || bytes[32 * i + 11] / 8 % 2 == 1 || bytes[32 * i..32 * i + 11] != name
    {
      assert Passed(bytes, name, i);
      assert Slot(bytes, i)[..11] == bytes[32 * i..32 * i + 11];
    }
  }

  datatype Scan = Hit(entry: seq<Byte>) | End | Nothing

  ghost predicate Scanned(bytes: seq<Byte>, name: seq<Byte>, r: Scan, i: nat, n: nat) {
    && PassedAll(bytes, name, i)
    && match r
       case Hit(e) => SlotIs(bytes, i, e) && |e| == ENTRY_SIZE && Matches(e, name)
       case End => 32 * i + 32 <= |bytes| && Ends(Slot(bytes, i))
       case Nothing => i == n
  }

  /** The entries of one sector. */
  method ScanSector(buf: seq<Byte>, name: seq<Byte>) returns (r: Scan, ghost at: nat)
    requires |buf| == SECTOR
    ensures at <= 16 && Scanned(buf, name, r, at, 16)
  {
    at := 0;
    for i := 0 to 16
      invariant at == i && PassedAll(buf, name, i)
    {
      var e := Slot(buf, i);
      if e[0] == 0 {
        return End, i;
      }
      if e[0] != 0xE5 && e[11] != 0x0F && e[11] / 8 % 2 == 0 && e[..11] == name {
        return Hit(e), i;
      }
      assert Passed(buf, name, i);
      at := i + 1;
    }
    r := Nothing;
  }

  lemma PieceOfPiece(bytes: seq<Byte>, from: nat, to: nat, lo: nat, hi: nat)
    requires from <= to <= |bytes| && lo <= hi <= to - from
    ensures bytes[from..to][lo..hi] == bytes[from + lo..from + hi]
  {
    var a, b := bytes[from..to][lo..hi], bytes[from + lo..from + hi];
    assert |a| == |b| && forall i :: 0 <= i < |a| ==> a[i] == b[i];
  }

  lemma SameSlot(bytes: seq<Byte>, base: nat, buf: seq<Byte>, i: nat)
    requires |buf| == SECTOR && 32 * base + SECTOR <= |bytes| && buf == bytes[32 * base..32 * base + SECTOR] && i < 16
    ensures 32 * (base + i) + 32 <= |bytes| && Slot(buf, i) == Slot(bytes, base + i)
  {
    PieceOfPiece(bytes, 32 * base, 32 * base + SECTOR, 32 * i, 32 * i + 32);
  }

  lemma ScannedOn(bytes: seq<Byte>, name: seq<Byte>, base: nat, buf: seq<Byte>, r: Scan, at: nat)
    requires |buf| == SECTOR && 32 * base + SECTOR <= |bytes| && buf == bytes[32 * base..32 * base + SECTOR]
    requires PassedAll(bytes, name, base) && at <= 16 && Scanned(buf, name, r, at, 16)
    ensures Scanned(bytes, name, r, base + at, base + 16)
  {
    forall i {:trigger Passed(bytes, name, i)} | 0 <= i < base + at ensures Passed(bytes, name, i) {
      if i >= base {
        assert Passed(buf, name, i - base);
        SameSlot(bytes, base, buf, i - base);
      }
    }
    if at < 16 { SameSlot(bytes, base, buf, at); }
  }

  lemma SectorFits(g: Geometry, s: nat)
    requires s < g.sectorsPerCluster
    ensures s * SECTOR + SECTOR <= g.ClusterSize()
  {
  }

  /** A sector of a cluster on the disk. */
  lemma SectorOfCluster(g: Geometry, disk: Disk, c: nat, s: nat)
    requires Readable(g, disk) && OnDisk(g, disk, c) && s < g.sectorsPerCluster
    ensures var lba := g.ClusterToLba(c) + s;
      && lba < WORD && lba * SECTOR + SECTOR <= |disk| && s * SECTOR + SECTOR <= g.ClusterSize()
      && Sectors(disk, lba, 1) == ClusterAt(g, disk, c)[s * SECTOR..s * SECTOR + SECTOR]
  {
    SamePlace(g, c);
    var lba, off := g.ClusterToLba(c) + s, g.ClusterOffset(c);
    assert lba * SECTOR == off + s * SECTOR;
    SectorFits(g, s);
    PieceOfPiece(disk, off, off + g.ClusterSize(), s * SECTOR, s * SECTOR + SECTOR);
  }

  /** The same sector among the bytes of the chain, counted in entries. */
  lemma SectorOfChain(g: Geometry, disk: Disk, ch: Chain, k: nat, s: nat, at: nat)
    requires Readable(g, disk) && AllOnDisk(g, disk, ch) && k < |ch| && s < g.sectorsPerCluster
    requires 32 * at == k * g.ClusterSize() + s * SECTOR
    ensures var lba, flat := g.ClusterToLba(ch[k]) + s, Flat(g, disk, ch);
      && lba < WORD && lba * SECTOR + SECTOR <= |disk| && 32 * at + SECTOR <= |flat|
      && Sectors(disk, lba, 1) == flat[32 * at..32 * at + SECTOR]
  {
    SectorOfCluster(g, disk, ch[k], s);
    FlatPiece(g, disk, ch, k);
    Pieces(k, |ch|, g.ClusterSize());
    PieceOfPiece(Flat(g, disk, ch), k * g.ClusterSize(), (k + 1) * g.ClusterSize(), s * SECTOR, s * SECTOR + SECTOR);
  }

  /** The sectors of one cluster. */
  method ScanCluster(g: Geometry, disk: Disk, c: nat, name: seq<Byte>, ghost ch: Chain, ghost k: nat, ghost base: nat)
    returns (r: Scan, ghost at: nat)
    requires Readable(g, disk) && AllOnDisk(g, disk, ch) && k < |ch| && ch[k] == c
    requires 32 * base == k * g.ClusterSize() && PassedAll(Flat(g, disk, ch), name, base)
    ensures Scanned(Flat(g, disk, ch), name, r, at, base + 16 * g.sectorsPerCluster)
  {
    var lba, left := g.ClusterToLba(c), g.sectorsPerCluster;
    ghost var s, flat := 0, Flat(g, disk, ch);
    r, at := Nothing, base;
    while left > 0
      invariant s + left == g.sectorsPerCluster && (left > 0 ==> lba == g.ClusterToLba(c) + s)
      invariant at == base + 16 * s && r == Nothing && PassedAll(flat, name, at)
    {
      SectorOfChain(g, disk, ch, k, s, at);
      var buf := Sectors(disk, lba, 1);
      ghost var i;
      r, i := ScanSector(buf, name);
      ScannedOn(flat, name, at, buf, r, i);
      at := at + i;
      if r != Nothing {
        return;
      }
      lba := if lba + 1 < WORD then lba + 1 else 0;
      left, s := left - 1, s + 1;
      if left > 0 { SectorOfCluster(g, disk, c, s); }
    }
  }

  /** `fat32_find_entry`: the first match in the directory's chain, and nothing after its end mark. */
  method FindEntry(g: Geometry, disk: Disk, first: nat, name: seq<Byte>, ghost ch: Chain, ghost stop: nat)
    returns (r: Found, ghost at: nat)
    requires DiskChain(g, disk, ch, stop) && ch[0] == first
    ensures Finds(Flat(g, disk, ch), name, r, at) && FirstOf(Flat(g, disk, ch), name, r, at)
  {
    var cluster := first;
    ghost var k := 0;
    at := 0;
    while true
      invariant 0 <= k < |ch| && cluster == ch[k] && 32 * at == k * g.ClusterSize() && PassedAll(Flat(g, disk, ch), name, at)
      decreases |ch| - k
    {
      Pieces(k, k + 1, g.ClusterSize());
      var s;
      s, at := ScanCluster(g, disk, cluster, name, ch, k, at);
      match s {
        case Hit(e) =>
          FindsFirst(Flat(g, disk, ch), name, Entry(e), at);
          return Entry(e), at;
        case End =>
          FindsFirst(Flat(g, disk, ch), name, Missing, at);
          return Missing, at;
        case Nothing =>
      }
      assert StepAt(g, disk, ch, k);
      var next := ReadFatEntry(g, disk, cluster);
      if next >= FAT_BAD {
        FindsFirst(Flat(g, disk, ch), name, Missing, at);
        return Missing, at;
      }
      cluster, k := next, k + 1;
    }
  }
}

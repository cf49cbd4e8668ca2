/** The boot loader finds and loads what the image writer wrote. */
module Fat32RoundTrip {
  import opened PhysicalBytes
  import opened Fat32Layout
  import opened Fat32Entries
  import opened Fat32Chains
  import opened Fat32Writer
  import opened Fat32Reader

  // ---- Chains ----

  lemma NextInBytes(g: Geometry, disk: Disk, bytes: seq<Byte>, c: nat, v: nat)
    requires c < g.Entries() && |bytes| == 4 * g.Entries() && g.FirstFat() + |bytes| <= |disk|
    requires Read(disk, g.FirstFat(), |bytes|) == bytes && bytes[4 * c..4 * c + 4] == EncodeLe32(v) && v < 0x1000_0000
    ensures NextOf(g, disk, c) == v
  {
    Le32At(bytes, 4 * c, v);
    SameLe32(disk, g.FirstFat(), |bytes|, 4 * c);
    Unmasked(v);
  }

  lemma Unmasked(v: nat)
    requires v < 0x1000_0000
    ensures v % 0x1000_0000 == v
  {
  }

  lemma NextInCopy(g: Geometry, disk: Disk, fat: seq<nat>, c: nat)
    requires CopyAt(g, disk, fat, 0) && c < |fat| && fat[c] < 0x1000_0000 && g.FirstFat() + 4 * g.Entries() <= |disk|
    ensures NextOf(g, disk, c) == fat[c]
  {
    FatWord(fat, c);
    NextInBytes(g, disk, FatBytes(fat), c, fat[c]);
  }

  /** The loader reads the entries that the writer kept in memory. */
  lemma NextOnImage(g: Geometry, disk: Disk, im: Record, root: Node, c: nat)
    requires ImageOf(g, disk, im, root) && Readable(g, disk) && c < g.Entries() && im.fat[c] < 0x1000_0000
    ensures g.FirstFat() + 4 * g.Entries() <= |disk| && NextOf(g, disk, c) == im.fat[c]
  {
    FatOnDisk(g, disk);
    assert CopyAt(g, disk, im.fat, 0);
    NextInCopy(g, disk, im.fat, c);
  }

  lemma ChainOnDisk(g: Geometry, disk: Disk, im: Record, root: Node, c: nat)
    requires ImageOf(g, disk, im, root) && Readable(g, disk) && c in im.chains
    ensures im.chains[c] != [] && im.chains[c][0] == c && DiskChain(g, disk, im.chains[c], FAT_EOF) && c < FAT_BAD
  {
    assert ChainAt(g, im.fat, disk, im.next, im.chains, c);
    var ch := im.chains[c];
    FatOnDisk(g, disk);
    forall i {:trigger StepAt(g, disk, ch, i)} | 0 <= i < |ch| ensures StepAt(g, disk, ch, i) {
      if i + 1 < |ch| {
        assert LinkAt(im.fat, ch, i);
        assert ch[i + 1] < |im.fat|;
        NextOnImage(g, disk, im, root, ch[i]);
      }
    }
    NextOnImage(g, disk, im, root, ch[|ch| - 1]);
  }

  // ---- Directories ----

  /** The names of the children as their entries have them. */
  function Names(kids: seq<Node>): (r: seq<seq<Byte>>)
    ensures |r| == |kids|
  {
    seq(|kids|, i requires 0 <= i < |kids| => Name83(kids[i].name))
  }

  /** The first name from `i` on that is the given one, or the number of names. */
  function IndexFrom(names: seq<seq<Byte>>, name: seq<Byte>, i: nat): (r: nat)
    requires i <= |names|
    ensures i <= r <= |names| && (r < |names| ==> names[r] == name)
    ensures forall j {:trigger names[j]} :: i <= j < r ==> names[j] != name
    decreases |names| - i
  {
    if i == |names| || names[i] == name then i else IndexFrom(names, name, i + 1)
  }

  /** The first child with the given 8.3 name, or the number of children. */
  function Kid(kids: seq<Node>, name: seq<Byte>): (r: nat)
    ensures r <= |kids|
  {
    IndexFrom(Names(kids), name, 0)
  }

  /** A name that no `.` or `..` entry has. */
  predicate Proper(name: seq<Byte>) { |name| == NAME_LEN && name[0] != DOT }

  lemma EntryMatches(first: seq<Byte>, attr: Byte, c: nat, size: nat, name: seq<Byte>)
    requires |first| == NAME_LEN && first[0] != 0 && first[0] != 0xE5 && attr in {ATTR_ARCHIVE, ATTR_DIRECTORY}
    ensures var e := EntryBytes(first, attr, c, size); !Ends(e) && (Matches(e, name) <==> first == name)
  {
    var e := EntryBytes(first, attr, c, size);
    assert e[0] == first[0] && EntryAttr(e) == attr && EntryName(e) == first;
  }

  lemma KidEntryMatches(n: Node, name: seq<Byte>)
    requires NameFits(n.name)
    ensures !Ends(EntryOf(n)) && (Matches(EntryOf(n), name) <==> Name83(n.name) == name)
  {
    NameStart(n.name);
    EntryMatches(Name83(n.name), if n.File? then ATTR_ARCHIVE else ATTR_DIRECTORY, n.cluster,
                 if n.File? then |n.data| else 0, name);
  }

  lemma KidEntryFields(n: Node)
    requires n.cluster < WORD && (n.File? ==> |n.data| < WORD)
    ensures EntryCluster(EntryOf(n)) == n.cluster && (n.File? ==> EntrySize(EntryOf(n)) == |n.data|)
  {
    EntryFields(Name83(n.name), if n.File? then ATTR_ARCHIVE else ATTR_DIRECTORY, n.cluster, if n.File? then |n.data| else 0);
  }

  lemma DotEntryPassed(first: seq<Byte>, c: nat, name: seq<Byte>)
    requires |first| == NAME_LEN && first[0] == DOT && Proper(name)
    ensures var e := EntryBytes(first, ATTR_DIRECTORY, c, 0); !Ends(e) && !Matches(e, name)
  {
    var e := EntryBytes(first, ATTR_DIRECTORY, c, 0);
    assert e[0] == first[0] && EntryName(e)[0] == e[0];
  }

  lemma DotsPassed(bytes: seq<Byte>, n: Node, parent: nat, name: seq<Byte>, i: nat)
    requires n.Directory? && Proper(name) && i < 2 && Lists(bytes, Listing(n.kids, n.cluster, parent, false))
    ensures Passed(bytes, name, i)
  {
    var all := Listing(n.kids, n.cluster, parent, false);
    assert SlotIs(bytes, i, all[i]);
    DotEntryPassed([DOT] + seq(10, _ => SPACE), n.cluster, name);
    DotEntryPassed([DOT, DOT] + seq(9, _ => SPACE), parent, name);
  }

  lemma KidSeen(bytes: seq<Byte>, kids: seq<Node>, all: seq<seq<Byte>>, d: nat, name: seq<Byte>, j: nat)
    requires Lists(bytes, all) && KidEntries(kids, all, d) && |all| == d + |kids| && j < |kids|
    ensures SlotIs(bytes, d + j, EntryOf(kids[j])) && !Ends(Slot(bytes, d + j))
    ensures Matches(Slot(bytes, d + j), name) <==> Names(kids)[j] == name
  {
    assert KidEntry(kids, all, d, j);
    assert SlotIs(bytes, d + j, all[d + j]);
    KidEntryMatches(kids[j], name);
  }

  lemma RestEnds(bytes: seq<Byte>, all: seq<seq<Byte>>, i: nat)
    requires Lists(bytes, all) && |all| <= i && 32 * i + 32 <= |bytes|
    ensures Ends(Slot(bytes, i))
  {
    assert SlotIs(bytes, i, Zeros(32));
  }

  lemma PassedKid(bytes: seq<Byte>, kids: seq<Node>, all: seq<seq<Byte>>, d: nat, name: seq<Byte>, at: nat, j: nat)
    requires Lists(bytes, all) && KidEntries(kids, all, d) && |all| == d + |kids| && j < |kids|
    requires PassedAll(bytes, name, at) && d + j < at
    ensures Names(kids)[j] != name
  {
    assert Passed(bytes, name, d + j);
    KidSeen(bytes, kids, all, d, name, j);
  }

  lemma IndexIs(names: seq<seq<Byte>>, name: seq<Byte>, j: nat)
    requires j <= |names| && (j < |names| ==> names[j] == name)
    requires forall k {:trigger names[k]} :: 0 <= k < j ==> names[k] != name
    ensures IndexFrom(names, name, 0) == j
  {
  }

  /** Where the look-up stopped. */
  lemma StoppedAt(bytes: seq<Byte>, n: Node, parent: nat, isRoot: bool, all: seq<seq<Byte>>, name: seq<Byte>, r: Found, at: nat)
    requires n.Directory? && Proper(name) && all == Listing(n.kids, n.cluster, parent, isRoot) && 32 * |all| <= |bytes|
    requires Lists(bytes, all) && KidEntries(n.kids, all, Dots(isRoot)) && Finds(bytes, name, r, at)
    ensures r.Missing? ==> at >= |all|
    ensures r.Entry? ==> Dots(isRoot) <= at < |all|
    ensures r.Entry? ==> r.bytes == EntryOf(n.kids[at - Dots(isRoot)]) && Names(n.kids)[at - Dots(isRoot)] == name
  {
    if at < Dots(isRoot) {
      DotsPassed(bytes, n, parent, name, at);
    } else if at < |all| {
      KidSeen(bytes, n.kids, all, Dots(isRoot), name, at - Dots(isRoot));
    } else if 32 * at + 32 <= |bytes| {
      RestEnds(bytes, all, at);
    }
  }

  /** A look-up in a written directory finds its first child of that name, and fails exactly if there is none. */
  lemma LookupExact(g: Geometry, bytes: seq<Byte>, n: Node, parent: nat, isRoot: bool, name: seq<Byte>, r: Found, at: nat)
    requires n.Directory? && Writable(g, n, isRoot) && Proper(name) && |bytes| == g.ClusterSize()
    requires Lists(bytes, Listing(n.kids, n.cluster, parent, isRoot)) && Finds(bytes, name, r, at)
    ensures var j := Kid(n.kids, name);
      r == if j < |n.kids| then Entry(EntryOf(n.kids[j])) else Missing
  {
    var kids, all, d := n.kids, Listing(n.kids, n.cluster, parent, isRoot), Dots(isRoot);
    ListingParts(g, n, parent, isRoot);
    StoppedAt(bytes, n, parent, isRoot, all, name, r, at);
    var j := if r.Missing? then |kids| else at - d;
    forall k {:trigger Names(kids)[k]} | 0 <= k < j ensures Names(kids)[k] != name {
      PassedKid(bytes, kids, all, d, name, at, k);
    }
    IndexIs(Names(kids), name, j);
  }

  // ---- Nodes of the image ----

  lemma {:induction false} WrittenNode(g: Geometry, written: map<nat, Placed>, t: Node, parent: nat, isRoot: bool, n: Node)
    requires Covers(written, t, parent, isRoot) && Writable(g, t, isRoot) && In(n, t)
    ensures n.cluster in written && written[n.cluster].node == n && Writable(g, n, written[n.cluster].isRoot)
    decreases t
  {
    if n != t {
      var i :| 0 <= i < |t.kids| && In(n, t.kids[i]);
      assert Covers(written, t.kids[i], t.cluster, false) && Writable(g, t.kids[i], false);
      WrittenNode(g, written, t.kids[i], t.cluster, false, n);
    }
  }

  /** The bytes of a file, zero-padded to whole clusters. */
  ghost function Image(g: Geometry, data: seq<Byte>): seq<Byte>
    requires g.sectorsPerCluster > 0
  {
    Pad(data, Needed(g, |data|) * g.ClusterSize())
  }

  /** A node has a chain that the loader can follow. */
  lemma NodeOnDisk(g: Geometry, disk: Disk, im: Record, root: Node, n: Node)
    requires ImageOf(g, disk, im, root) && Readable(g, disk) && In(n, root)
    ensures n.cluster in im.chains && n.cluster < FAT_BAD && DiskChain(g, disk, im.chains[n.cluster], FAT_EOF)
    ensures im.chains[n.cluster][0] == n.cluster
    ensures n.File? ==> |im.chains[n.cluster]| == Needed(g, |n.data|) && 0 < |n.data| < WORD
    ensures n.File? ==> Flat(g, disk, im.chains[n.cluster]) == Image(g, n.data)
  {
    WrittenNode(g, im.written, root, 0, true, n);
    assert PlacedAt(g, im.fat, disk, im.chains, im.written, n.cluster);
    ChainOnDisk(g, disk, im, root, n.cluster);
    if n.File? { NeededExact(g, |n.data|, |im.chains[n.cluster]|); }
  }

  lemma FlatOne(g: Geometry, disk: Disk, c: nat)
    requires OnDisk(g, disk, c)
    ensures AllOnDisk(g, disk, [c]) && Flat(g, disk, [c]) == ClusterAt(g, disk, c)
  {
    FlatFirst(g, disk, [c]);
    assert Flat(g, disk, [c][1..]) == [];
  }

  /** The entries of a directory are the bytes of its chain. */
  lemma EntriesOnDisk(g: Geometry, disk: Disk, im: Record, root: Node, n: Node)
    requires ImageOf(g, disk, im, root) && In(n, root) && n.Directory?
    ensures n.cluster in im.written && im.written[n.cluster].node == n && Writable(g, n, im.written[n.cluster].isRoot)
    ensures OnDisk(g, disk, n.cluster) && n.cluster in im.chains && im.chains[n.cluster] == [n.cluster]
    ensures var p := im.written[n.cluster]; Lists(ClusterAt(g, disk, n.cluster), Listing(n.kids, n.cluster, p.parent, p.isRoot))
  {
    WrittenNode(g, im.written, root, 0, true, n);
    assert PlacedAt(g, im.fat, disk, im.chains, im.written, n.cluster);
  }

  lemma DirectoryOnDisk(g: Geometry, disk: Disk, im: Record, root: Node, n: Node, name: seq<Byte>, r: Found, at: nat)
    requires ImageOf(g, disk, im, root) && In(n, root) && n.Directory? && Proper(name)
    requires n.cluster in im.chains && AllOnDisk(g, disk, im.chains[n.cluster])
    requires Finds(Flat(g, disk, im.chains[n.cluster]), name, r, at)
    ensures var j := Kid(n.kids, name); r == if j < |n.kids| then Entry(EntryOf(n.kids[j])) else Missing
  {
    EntriesOnDisk(g, disk, im, root, n);
    FlatOne(g, disk, n.cluster);
    var p := im.written[n.cluster];
    LookupExact(g, ClusterAt(g, disk, n.cluster), n, p.parent, p.isRoot, name, r, at);
  }

  lemma KidIn(n: Node, root: Node, j: nat)
    requires In(n, root) && n.Directory? && j < |n.kids|
    ensures In(n.kids[j], root)
    decreases root
  {
    if n == root {
      assert In(n.kids[j], root.kids[j]);
    } else {
      var i :| 0 <= i < |root.kids| && In(n, root.kids[i]);
      KidIn(n, root.kids[i], j);
    }
  }

  /** Looking up a name in any directory of the image. */
  method FindKid(g: Geometry, disk: Disk, cluster: nat, name: seq<Byte>, ghost im: Record, ghost root: Node, ghost n: Node)
    returns (r: Found)
    requires ImageOf(g, disk, im, root) && Readable(g, disk) && In(n, root) && n.Directory? && n.cluster == cluster && Proper(name)
    ensures var j := Kid(n.kids, name); r == if j < |n.kids| then Entry(EntryOf(n.kids[j])) else Missing
  {
    NodeOnDisk(g, disk, im, root, n);
    ghost var at;
    r, at := FindEntry(g, disk, cluster, name, im.chains[cluster], FAT_EOF);
    DirectoryOnDisk(g, disk, im, root, n, name, r, at);
  }

  /** The child of that name, if any, is a file that fits between `at` and the end of the first MiB. */
  ghost predicate KidFits(g: Geometry, n: Node, name: seq<Byte>, at: nat)
    requires n.Directory? && g.sectorsPerCluster > 0
  {
    var j := Kid(n.kids, name);
    j < |n.kids| ==> n.kids[j].File? && at + Needed(g, |n.kids[j].data|) * g.ClusterSize() <= 0x10_0000
  }

  /**
   * Looking up a file in any directory of the image and loading it (`stage2_entry`): the loader
   * gets exactly the file's bytes and its size, and fails exactly if there is no such name.
   */
  method LoadKid(l: Loader, cluster: nat, name: seq<Byte>, ghost im: Record, ghost root: Node, ghost n: Node)
    returns (ok: bool, size: nat)
    requires l.Valid() && l.g.sectorsPerCluster < 128 && ImageOf(l.g, l.disk, im, root)
    requires In(n, root) && n.Directory? && n.cluster == cluster && Proper(name) && |l.ram| >= 0x10_0000
    requires KidFits(l.g, n, name, 16 * l.es + l.si)
    modifies l`ram, l`es, l`si
    ensures l.Valid() && (ok <==> Kid(n.kids, name) < |n.kids|)
    ensures ok ==> var data := n.kids[Kid(n.kids, name)].data;
      size == |data| && Stores(old(l.ram), l.ram, 16 * old(l.es) + old(l.si), Image(l.g, data))
    ensures !ok ==> l.ram == old(l.ram)
  {
    var r := FindKid(l.g, l.disk, cluster, name, im, root, n);
    if r.Missing? {
      return false, 0;
    }
    ghost var file := n.kids[Kid(n.kids, name)];
    KidIn(n, root, Kid(n.kids, name));
    NodeOnDisk(l.g, l.disk, im, root, file);
    KidEntryFields(file);
    size := EntrySize(r.bytes);
    ghost var ch := im.chains[file.cluster];
    StoredWhole(l.g, l.disk, l.ram, 16 * l.es + l.si, ch);
    ok := l.LoadFile(EntryCluster(r.bytes), ch, FAT_EOF);
  }

  ghost predicate Stores(before: seq<Byte>, after: seq<Byte>, at: nat, bytes: seq<Byte>) {
    at + |bytes| <= |before| && after == Write(before, at, bytes)
  }

  /** The path resolves to a file, or breaks off at a missing name. */
  ghost predicate PathFits(g: Geometry, root: Node, dir: seq<Byte>, name: seq<Byte>, at: nat)
    requires root.Directory? && g.sectorsPerCluster > 0
  {
    var i := Kid(root.kids, dir);
    i < |root.kids| ==> root.kids[i].Directory? && KidFits(g, root.kids[i], name, at)
  }

  /** The root has the directory and the directory the file. */
  predicate PathFound(root: Node, dir: seq<Byte>, name: seq<Byte>)
    requires root.Directory?
  {
    var i := Kid(root.kids, dir);
    i < |root.kids| && root.kids[i].Directory? && Kid(root.kids[i].kids, name) < |root.kids[i].kids|
  }

  function FileOf(root: Node, dir: seq<Byte>, name: seq<Byte>): Node
    requires root.Directory? && PathFound(root, dir, name)
  {
    var d := root.kids[Kid(root.kids, dir)];
    d.kids[Kid(d.kids, name)]
  }

  /** Loading `/dir/name` from a finished image, as the boot loader loads the kernel and the first program. */
  method LoadPath(l: Loader, dir: seq<Byte>, name: seq<Byte>, ghost im: Record, ghost root: Node) returns (ok: bool, size: nat)
    requires l.Valid() && l.g.sectorsPerCluster < 128 && ImageOf(l.g, l.disk, im, root) && |l.ram| >= 0x10_0000
    requires Proper(dir) && Proper(name) && PathFits(l.g, root, dir, name, 16 * l.es + l.si)
    modifies l`ram, l`es, l`si
    ensures ok <==> PathFound(root, dir, name)
    ensures ok ==> FileOf(root, dir, name).File?
    ensures ok ==> var data := FileOf(root, dir, name).data;
      size == |data| && Stores(old(l.ram), l.ram, 16 * old(l.es) + old(l.si), Image(l.g, data))
    ensures !ok ==> l.ram == old(l.ram)
  {
    var r := FindKid(l.g, l.disk, l.g.rootCluster, dir, im, root, root);
    if r.Missing? {
      return false, 0;
    }
    ghost var d := root.kids[Kid(root.kids, dir)];
    KidIn(root, root, Kid(root.kids, dir));
    NodeOnDisk(l.g, l.disk, im, root, d);
    KidEntryFields(d);
    ok, size := LoadKid(l, EntryCluster(r.bytes), name, im, root, d);
  }

  // ---- From the tree to memory ----

  lemma NamesAt(kids: seq<Node>, i: nat)
    requires i < |kids|
    ensures Names(kids)[i] == Name83(kids[i].name)
  {
  }

  lemma SameAtTop(n: Node, m: Node)
    requires SameTree(n, m)
    ensures n.name == m.name && n.File? == m.File? && (n.File? ==> n.data == m.data)
    ensures n.Directory? ==> |n.kids| == |m.kids| && SameTrees(n.kids, m.kids, |n.kids|)
  {
  }

  /** The same tree has the same child of a name, but for clusters. */
  lemma SameChild(n: Node, m: Node, name: seq<Byte>)
    requires n.Directory? && SameTree(n, m)
    ensures m.Directory? && |m.kids| == |n.kids| && Kid(m.kids, name) == Kid(n.kids, name)
    ensures var i := Kid(n.kids, name); i < |n.kids| ==> SameTree(n.kids[i], m.kids[i])
  {
    SameAtTop(n, m);
    forall i | 0 <= i < |n.kids| ensures Names(n.kids)[i] == Names(m.kids)[i] {
      assert SameKid(n.kids, m.kids, i);
      SameAtTop(n.kids[i], m.kids[i]);
      NamesAt(n.kids, i);
      NamesAt(m.kids, i);
    }
    assert Names(n.kids) == Names(m.kids);
    var i := Kid(n.kids, name);
    if i < |n.kids| { assert SameKid(n.kids, m.kids, i); }
  }

  /** Clusters do not matter to what a path leads to. */
  lemma SamePath(g: Geometry, root: Node, r: Node, dir: seq<Byte>, name: seq<Byte>, at: nat)
    requires g.sectorsPerCluster > 0 && root.Directory? && SameTree(root, r)
    ensures r.Directory? && (PathFound(r, dir, name) <==> PathFound(root, dir, name))
    ensures PathFits(g, r, dir, name, at) <==> PathFits(g, root, dir, name, at)
    ensures PathFound(root, dir, name) ==> SameTree(FileOf(root, dir, name), FileOf(r, dir, name))
  {
    SameChild(root, r, dir);
    var i := Kid(root.kids, dir);
    if i < |root.kids| {
      var d, e := root.kids[i], r.kids[i];
      SameAtTop(d, e);
      if d.Directory? {
        SameChild(d, e, name);
        var j := Kid(d.kids, name);
        if j < |d.kids| { SameAtTop(d.kids[j], e.kids[j]); }
      }
    }
  }

  /** The path was found exactly if the tree has it, and then the file is in memory from `at` on. */
  ghost predicate Loaded(g: Geometry, root: Node, dir: seq<Byte>, name: seq<Byte>, ram: seq<Byte>, at: nat,
                         ok: bool, size: nat, after: seq<Byte>)
    requires root.Directory? && g.sectorsPerCluster > 0
  {
    && (ok <==> PathFound(root, dir, name))
    && (ok ==> var file := FileOf(root, dir, name);
          file.File? && size == |file.data| && Stores(ram, after, at, Image(g, file.data)) && Holds(ram, after, at, file.data))
    && (!ok ==> after == ram)
  }

  lemma SameLoaded(g: Geometry, root: Node, r: Node, dir: seq<Byte>, name: seq<Byte>, ram: seq<Byte>, at: nat,
                   ok: bool, size: nat, after: seq<Byte>)
    requires g.sectorsPerCluster > 0 && root.Directory? && r.Directory? && SameTree(root, r)
    requires Loaded(g, r, dir, name, ram, at, ok, size, after)
    ensures Loaded(g, root, dir, name, ram, at, ok, size, after)
  {
    SamePath(g, root, r, dir, name, at);
    if ok { SameAtTop(FileOf(root, dir, name), FileOf(r, dir, name)); }
  }

  lemma FitsBeyondTables(g: Geometry, disk: Disk, limit: nat)
    requires Fits(g, disk, limit)
    ensures g.DataOffset() < |disk|
  {
    OnDiskBelow(g, disk, 2, limit - 1);
    DataBeyond(g, 2);
  }

  /** The loader, started on a finished image. */
  method LoadFrom(g: Geometry, disk: Disk, ram: seq<Byte>, es: nat, si: nat, dir: seq<Byte>, name: seq<Byte>,
                  ghost im: Record, ghost root: Node)
    returns (ok: bool, size: nat, after: seq<Byte>)
    requires g.sectorsPerCluster < 128 && Readable(g, disk) && ImageOf(g, disk, im, root)
    requires |ram| >= 0x10_0000 && es < 0x1_0000 && si < 0x1_0000
    requires Proper(dir) && Proper(name) && PathFits(g, root, dir, name, 16 * es + si)
    ensures Loaded(g, root, dir, name, ram, 16 * es + si, ok, size, after)
  {
    var l := new Loader(g, disk, ram, es, si);
    ok, size := LoadPath(l, dir, name, im, root);
    after := l.ram;
    if ok { StoresHolds(g, ram, after, 16 * es + si, FileOf(root, dir, name).data); }
  }

  // ---- The kernel ----

  /** The bytes of a text. */
  function Ascii(s: string): (r: seq<Byte>)
    ensures |r| == |s|
  {
    seq(|s|, i requires 0 <= i < |s| => if s[i] < 128 as char then s[i] as int else 0)
  }

  /** The names that the tree has are the ones that the boot loader looks for. */
  lemma BootNames()
    ensures Name83(Ascii("boot")) == Ascii("BOOT       ") && Name83(Ascii("kernel.bin")) == Ascii("KERNEL  BIN")
  {
    assert Ascii("boot") == [98, 111, 111, 116] && Ascii("BOOT       ") == [66, 79, 79, 84, 32, 32, 32, 32, 32, 32, 32];
    BootName();
    assert Ascii("kernel.bin") == [107, 101, 114, 110, 101, 108, 46, 98, 105, 110];
    assert Ascii("KERNEL  BIN") == [75, 69, 82, 78, 69, 76, 32, 32, 66, 73, 78];
    KernelName();
  }

  lemma BootName()
    ensures Name83([98, 111, 111, 116]) == [66, 79, 79, 84, 32, 32, 32, 32, 32, 32, 32]
  {
    var b: seq<Byte> := [98, 111, 111, 116];
    NameParts(b, []);
    Name83Exact(b);
    var n := Name83(b);
    assert n == [n[0], n[1], n[2], n[3], n[4], n[5], n[6], n[7], n[8], n[9], n[10]];
  }

  lemma KernelName()
    ensures Name83([107, 101, 114, 110, 101, 108, 46, 98, 105, 110]) == [75, 69, 82, 78, 69, 76, 32, 32, 66, 73, 78]
  {
    var b: seq<Byte>, e: seq<Byte> := [107, 101, 114, 110, 101, 108], [98, 105, 110];
    var name := [107, 101, 114, 110, 101, 108, 46, 98, 105, 110];
    NameParts(b, e);
    assert b + [46] + e == name;
    Name83Exact(name);
    var n := Name83(name);
    assert n == [n[0], n[1], n[2], n[3], n[4], n[5], n[6], n[7], n[8], n[9], n[10]];
  }

  /** Child `i` has the name, and no other child has the same name in a directory. */
  ghost predicate OnlyKid(kids: seq<Node>, i: nat, name: seq<Byte>) {
    i < |kids| && kids[i].name == name && forall j :: 0 <= j < |kids| && j != i ==> Name83(kids[j].name) != Name83(name)
  }

  lemma KidIs(kids: seq<Node>, i: nat, name: seq<Byte>)
    requires OnlyKid(kids, i, name)
    ensures Kid(kids, Name83(name)) == i
  {
    NamesAt(kids, i);
    var r := Kid(kids, Name83(name));
    if r < |kids| { NamesAt(kids, r); }
  }

  /** Memory from `at` on holds the bytes, and is unchanged before them. */
  ghost predicate Holds(ram: seq<Byte>, after: seq<Byte>, at: nat, data: seq<Byte>) {
    && |after| == |ram| && at + |data| <= |ram|
    && (forall k {:trigger after[k]} :: at <= k < at + |data| ==> after[k] == data[k - at])
    && (forall k {:trigger after[k]} :: 0 <= k < at ==> after[k] == ram[k])
  }

  lemma StoresHolds(g: Geometry, ram: seq<Byte>, after: seq<Byte>, at: nat, data: seq<Byte>)
    requires g.sectorsPerCluster > 0 && Stores(ram, after, at, Image(g, data))
    ensures Holds(ram, after, at, data)
  {
    NeededBound(g, |data|, Needed(g, |data|));
  }

  /** A tree with `/boot/kernel.bin`, written and then looked up as `BOOT       ` and `KERNEL  BIN`: the kernel is in memory. */
  method BootKernel(g: Geometry, disk: Disk, root: Node, ram: seq<Byte>, es: nat, si: nat, ghost i: nat, ghost j: nat)
    returns (ok: bool, size: nat, after: seq<Byte>)
    requires g.Valid() && g.sectorsPerCluster < 128 && root.Directory? && Fresh(root) && Writable(g, root, true)
    requires Fits(g, disk, g.rootCluster + Total(g, root)) && |disk| <= WORD * SECTOR
    requires |ram| >= 0x10_0000 && es < 0x1_0000 && si < 0x1_0000
    requires OnlyKid(root.kids, i, Ascii("boot")) && root.kids[i].Directory?
    requires OnlyKid(root.kids[i].kids, j, Ascii("kernel.bin")) && root.kids[i].kids[j].File?
    requires 16 * es + si + Needed(g, |root.kids[i].kids[j].data|) * g.ClusterSize() <= 0x10_0000
    ensures ok && size == |root.kids[i].kids[j].data| && Holds(ram, after, 16 * es + si, root.kids[i].kids[j].data)
  {
    BootNames();
    KidIs(root.kids, i, Ascii("boot"));
    KidIs(root.kids[i].kids, j, Ascii("kernel.bin"));
    ok, size, after := WriteThenLoad(g, disk, root, ram, es, si, Ascii("BOOT       "), Ascii("KERNEL  BIN"));
    StoresHolds(g, ram, after, 16 * es + si, root.kids[i].kids[j].data);
  }

  /**
   * Writing any tree to a disk and then loading a path from it: the loader finds the path
   * exactly if the tree has it, and memory then holds the file, zero-padded to whole clusters.
   */
  method WriteThenLoad(g: Geometry, disk: Disk, root: Node, ram: seq<Byte>, es: nat, si: nat, dir: seq<Byte>, name: seq<Byte>)
    returns (ok: bool, size: nat, after: seq<Byte>)
    requires g.Valid() && g.sectorsPerCluster < 128 && root.Directory? && Fresh(root) && Writable(g, root, true)
    requires Fits(g, disk, g.rootCluster + Total(g, root)) && |disk| <= WORD * SECTOR
    requires |ram| >= 0x10_0000 && es < 0x1_0000 && si < 0x1_0000
    requires Proper(dir) && Proper(name) && PathFits(g, root, dir, name, 16 * es + si)
    ensures Loaded(g, root, dir, name, ram, 16 * es + si, ok, size, after)
  {
    FitsBeyondTables(g, disk, g.rootCluster + Total(g, root));
    var w, r;
    ghost var im;
    w, r, im := MakeImage(g, disk, root);
    SamePath(g, root, r, dir, name, 16 * es + si);
    ok, size, after := LoadFrom(g, w.disk, ram, es, si, dir, name, im, r);
    SameLoaded(g, root, r, dir, name, ram, 16 * es + si, ok, size, after);
  }
}

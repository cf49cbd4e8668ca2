/**
 * Directory entries as the image writer makes them: simplified 8.3 names without long file
 * names, and 32-byte records (`tools/mkimage/fat32.c`, `tools/mkimage/fat32.h`).
 */
module Fat32Entries {
  import opened PhysicalBytes
  import opened Fat32Layout

  const DOT: Byte := 46
  const SPACE: Byte := 32
  const ATTR_DIRECTORY: Byte := 0x10
  const ATTR_ARCHIVE: Byte := 0x20

  /** A node of the tree to write; `cluster` is its first cluster, 0 while unassigned. */
  datatype Node =
    | File(name: seq<Byte>, cluster: nat, data: seq<Byte>)
    | Directory(name: seq<Byte>, cluster: nat, kids: seq<Node>)

  // ---- Names ----

  function Upper(b: Byte): Byte { if 97 <= b <= 122 then b - 32 else b }

  /** What stands before the first dot. */
  function Base(name: seq<Byte>): (r: seq<Byte>)
    ensures |r| <= |name| && r == name[..|r|]
    ensures |r| < |name| ==> name[|r|] == DOT
    ensures DOT !in r
  {
    if name == [] || name[0] == DOT then [] else [name[0]] + Base(name[1..])
  }

  /** What stands after the first dot. */
  function Extension(name: seq<Byte>): (r: seq<Byte>)
    ensures |Base(name)| < |name| ==> name == Base(name) + [DOT] + r
    ensures |Base(name)| == |name| ==> r == []
  {
    if |Base(name)| < |name| then name[|Base(name)| + 1..] else []
  }

  /** The names the fixed buffers of `fat32_create_entry` take, in ASCII. */
  predicate NameFits(name: seq<Byte>) {
    |name| <= 10 && |Extension(name)| <= 3 && forall i :: 0 <= i < |name| ==> 1 <= name[i] < 128
  }

  /** Byte `i` of the padded name before it is put in upper case. */
  function PaddedChar(name: seq<Byte>, i: nat): Byte {
    if 8 <= i < 8 + |Extension(name)| then Extension(name)[i - 8]
    else if i < |Base(name)| then Base(name)[i]
    else SPACE
  }

  function Name83(name: seq<Byte>): (r: seq<Byte>)
    ensures |r| == NAME_LEN
    ensures forall i {:trigger r[i]} :: 0 <= i < NAME_LEN ==> r[i] == Upper(PaddedChar(name, i))
  {
    seq(NAME_LEN, i requires 0 <= i => Upper(PaddedChar(name, i)))
  }

  /**
   * The eleven bytes: before the dot from 0 on, after it from 8 on over that, blanks elsewhere, and the letters 97 to 122
   * exchanged for those 32 below.
   */
  ghost predicate UpperCase83(r: seq<Byte>, name: seq<Byte>) {
    && |r| == 11
    && forall i {:trigger r[i]} :: 0 <= i < 11 ==>
         var c := if 8 <= i < 8 + |Extension(name)| then Extension(name)[i - 8] else if i < |Base(name)| then Base(name)[i] else 32;
         r[i] == if 97 <= c <= 122 then c - 32 else c
  }

  lemma Name83Exact(name: seq<Byte>)
    ensures UpperCase83(Name83(name), name)
  {
  }

  /** The part before the first dot and the part after it, if the name is made of them. */
  lemma NameParts(base: seq<Byte>, ext: seq<Byte>)
    requires 46 !in base
    ensures Base(base) == base && Extension(base) == []
    ensures Base(base + [46] + ext) == base && Extension(base + [46] + ext) == ext
  {
    FirstDot(base, base);
    FirstDot(base + [46] + ext, base);
    var name := base + [46] + ext;
    assert name == Base(name) + [DOT] + Extension(name);
    assert name[|base| + 1..] == ext;
  }

  lemma {:induction false} FirstDot(name: seq<Byte>, base: seq<Byte>)
    requires 46 !in base && |base| <= |name| && name[..|base|] == base && (|base| < |name| ==> name[|base|] == 46)
    ensures Base(name) == base
  {
    if base != [] {
      assert name[0] == base[0] && base[0] in base;
      assert name[1..][..|base| - 1] == base[1..];
      FirstDot(name[1..], base[1..]);
    }
  }

  function Uppered(s: seq<Byte>): (r: seq<Byte>)
    ensures |r| == |s| && forall i {:trigger r[i]} :: 0 <= i < |s| ==> r[i] == Upper(s[i])
  {
    seq(|s|, i requires 0 <= i < |s| => Upper(s[i]))
  }

  lemma NameChars(name: seq<Byte>, i: nat)
    requires NameFits(name)
    ensures i < |Base(name)| ==> 1 <= Base(name)[i] < 128 && Base(name)[i] != DOT
    ensures i < |Extension(name)| ==> 1 <= Extension(name)[i] < 128
  {
    var b, e := Base(name), Extension(name);
    if i < |b| { assert b[i] == name[i] && b[i] in b; }
    if i < |e| {
      assert name == b + [DOT] + e;
      assert name[|b| + 1 + i] == e[i];
    }
  }

  /** No written name reads as end marker, deleted entry, `.` or `..`. */
  lemma NameStart(name: seq<Byte>)
    requires NameFits(name)
    ensures Name83(name)[0] != 0 && Name83(name)[0] != 0xE5 && Name83(name)[0] != DOT
  {
    NameChars(name, 0);
  }

  lemma SamePadded(s: seq<Byte>, t: seq<Byte>, n: nat)
    requires |s| <= n && |t| <= n && SPACE !in s && SPACE !in t
    requires forall i {:trigger Padded(s, i)} :: 0 <= i < n ==> Upper(Padded(s, i)) == Upper(Padded(t, i))
    ensures Uppered(s) == Uppered(t)
  {
    assert (|s| < |t| ==> t[|s|] in t) && (|t| < |s| ==> s[|t|] in s);
    assert |s| < |t| ==> Upper(Padded(s, |s|)) == Upper(Padded(t, |s|));
    assert |t| < |s| ==> Upper(Padded(s, |t|)) == Upper(Padded(t, |t|));
    forall i | 0 <= i < |s| ensures Uppered(s)[i] == Uppered(t)[i] {
      assert Padded(s, i) == s[i];
    }
  }

  function Padded(s: seq<Byte>, i: nat): Byte { if i < |s| then s[i] else SPACE }

  /**
   * Two names without blanks, with at most eight characters before the dot and three after,
   * become the same entry name exactly when they differ in case or in a trailing dot only.
   */
  lemma NamesCollide(a: seq<Byte>, b: seq<Byte>)
    requires NameFits(a) && NameFits(b) && |Base(a)| <= 8 && |Base(b)| <= 8 && SPACE !in a && SPACE !in b
    ensures Name83(a) == Name83(b)
      <==> Uppered(Base(a)) == Uppered(Base(b)) && Uppered(Extension(a)) == Uppered(Extension(b))
  {
    if Name83(a) == Name83(b) {
      forall i: nat | i < 8 ensures Upper(Padded(Base(a), i)) == Upper(Padded(Base(b), i)) {
        assert Name83(a)[i] == Name83(b)[i];
      }
      SamePadded(Base(a), Base(b), 8);
      forall i: nat | i < 3 ensures Upper(Padded(Extension(a), i)) == Upper(Padded(Extension(b), i)) {
        assert Name83(a)[8 + i] == Name83(b)[8 + i];
      }
      SamePadded(Extension(a), Extension(b), 3);
    } else if Uppered(Base(a)) == Uppered(Base(b)) && Uppered(Extension(a)) == Uppered(Extension(b)) {
      forall i | 0 <= i < NAME_LEN ensures Name83(a)[i] == Name83(b)[i] {
        SameChar(a, b, i);
      }
    }
  }

  lemma SameChar(a: seq<Byte>, b: seq<Byte>, i: nat)
    requires Uppered(Base(a)) == Uppered(Base(b)) && Uppered(Extension(a)) == Uppered(Extension(b))
    ensures Upper(PaddedChar(a, i)) == Upper(PaddedChar(b, i))
  {
    assert |Uppered(Base(a))| == |Uppered(Base(b))| && |Uppered(Extension(a))| == |Uppered(Extension(b))|;
    if 8 <= i < 8 + |Extension(a)| {
      assert Uppered(Extension(a))[i - 8] == Uppered(Extension(b))[i - 8];
    } else if i < |Base(a)| {
      assert Uppered(Base(a))[i] == Uppered(Base(b))[i];
    }
  }

  // ---- Entries ----

  function Zeros(n: nat): (r: seq<Byte>)
    ensures |r| == n
  {
    seq(n, _ => 0)
  }

  /** Name, attributes, zero times, first cluster in two halves, size. */
  function EntryBytes(name: seq<Byte>, attr: Byte, cluster: nat, size: nat): (r: seq<Byte>)
    requires |name| == NAME_LEN
    ensures |r| == ENTRY_SIZE
  {
    name + [attr] + Zeros(8) + EncodeLe16(cluster / 0x1_0000) + Zeros(4) + EncodeLe16(cluster % 0x1_0000) + EncodeLe32(size)
  }

  function EntryOf(n: Node): (r: seq<Byte>)
    ensures |r| == ENTRY_SIZE
  {
    match n
    case File(name, c, data) => EntryBytes(Name83(name), ATTR_ARCHIVE, c, |data|)
    case Directory(name, c, _) => EntryBytes(Name83(name), ATTR_DIRECTORY, c, 0)
  }

  // What the boot loader takes out of an entry (`stage2_entry`).

  function EntryName(e: seq<Byte>): seq<Byte> requires |e| == ENTRY_SIZE { e[..NAME_LEN] }
  function EntryAttr(e: seq<Byte>): Byte requires |e| == ENTRY_SIZE { e[11] }
  function EntryCluster(e: seq<Byte>): nat requires |e| == ENTRY_SIZE { Le16(e, 20) * 0x1_0000 + Le16(e, 26) }
  function EntrySize(e: seq<Byte>): nat requires |e| == ENTRY_SIZE { Le32(e, 28) }

  /** The reader gets back every field that the writer put in. */
  lemma EntryFields(name: seq<Byte>, attr: Byte, cluster: nat, size: nat)
    requires |name| == NAME_LEN && cluster < 0x1_0000_0000 && size < 0x1_0000_0000
    ensures var e := EntryBytes(name, attr, cluster, size);
      EntryName(e) == name && EntryAttr(e) == attr && EntryCluster(e) == cluster && EntrySize(e) == size
  {
    var e := EntryBytes(name, attr, cluster, size);
    var hi, lo := cluster / 0x1_0000, cluster % 0x1_0000;
    assert e[20..22] == EncodeLe16(hi) && e[26..28] == EncodeLe16(lo) && e[28..32] == EncodeLe32(size);
    Le16At(e, 20, hi);
    Le16At(e, 26, lo);
    Le32At(e, 28, size);
  }

  /**
   * The 32 bytes of an entry: name, attribute at 11, first cluster with its high half at 20 and its low half at 26, size at 28,
   * all lowest byte first, and zeros elsewhere.
   */
  ghost predicate Laid(e: seq<Byte>, name: seq<Byte>, attr: Byte, cluster: nat, size: nat) {
    && |e| == 32 && e[..11] == name && e[11] == attr
    && (forall i {:trigger e[i]} :: 12 <= i < 20 || 22 <= i < 26 ==> e[i] == 0)
    && (e[20] as int) + 0x100 * (e[21] as int) == cluster / 0x1_0000 % 0x1_0000
    && (e[26] as int) + 0x100 * (e[27] as int) == cluster % 0x1_0000
    && (e[28] as int) + 0x100 * (e[29] as int) + 0x1_0000 * (e[30] as int) + 0x100_0000 * (e[31] as int) == size % 0x1_0000_0000
  }

  lemma HalfWord(v: nat)
    ensures (ByteOf(v, 0) as int) + 0x100 * (ByteOf(v, 1) as int) == v % 0x1_0000
  {
    var q, b := Byte256(v);
    var q1, b1 := Byte256(q);
    assert v == 0x1_0000 * q1 + (0x100 * (b1 as int) + b);
  }

  lemma EntryLaid(name: seq<Byte>, attr: Byte, cluster: nat, size: nat)
    requires |name| == NAME_LEN
    ensures Laid(EntryBytes(name, attr, cluster, size), name, attr, cluster, size)
  {
    var e := EntryBytes(name, attr, cluster, size);
    HalfWord(cluster / 0x1_0000);
    HalfWord(cluster % 0x1_0000);
    ByteOrder(size);
    assert e[20..22] == EncodeLe16(cluster / 0x1_0000) && e[26..28] == EncodeLe16(cluster % 0x1_0000) && e[28..32] == EncodeLe32(size);
    assert e[20] == e[20..22][0] && e[21] == e[20..22][1] && e[26] == e[26..28][0] && e[27] == e[26..28][1];
    assert e[28] == e[28..32][0] && e[29] == e[28..32][1] && e[30] == e[28..32][2] && e[31] == e[28..32][3];
    forall i {:trigger e[i]} | 12 <= i < 20 || 22 <= i < 26 ensures e[i] == 0 {
      assert e[12..20] == Zeros(8) && e[22..26] == Zeros(4);
    }
  }

  /** A file is marked 0x20 and a directory 0x10, which has size 0. */
  ghost predicate EntryFor(e: seq<Byte>, n: Node) {
    && |e| == 32 && UpperCase83(e[..11], n.name)
    && Laid(e, e[..11], if n.Directory? then 0x10 else 0x20, n.cluster, if n.File? then |n.data| else 0)
  }

  lemma EntryOfExact(n: Node)
    ensures EntryFor(EntryOf(n), n)
  {
    Name83Exact(n.name);
    EntryLaid(Name83(n.name), if n.Directory? then ATTR_DIRECTORY else ATTR_ARCHIVE, n.cluster, if n.File? then |n.data| else 0);
  }

  /** Lays `part` over `tmp` from `at` on. */
  method CopyName(tmp: array<Byte>, at: nat, part: seq<Byte>)
    requires at + |part| <= tmp.Length
    modifies tmp
    ensures forall i {:trigger tmp[i]} :: 0 <= i < tmp.Length ==>
      tmp[i] == if at <= i < at + |part| then part[i - at] else old(tmp[i])
  {
    forall i | 0 <= i < |part| { tmp[at + i] := part[i]; }
  }

  /** The loop that puts the padded name in upper case. */
  method UpperName(tmp: array<Byte>)
    modifies tmp
    ensures forall i {:trigger tmp[i]} :: 0 <= i < tmp.Length ==> tmp[i] == Upper(old(tmp[i]))
  {
    for i := 0 to tmp.Length
      invariant forall j {:trigger tmp[j]} :: 0 <= j < i ==> tmp[j] == Upper(old(tmp[j]))
      invariant forall j {:trigger tmp[j]} :: i <= j < tmp.Length ==> tmp[j] == old(tmp[j])
    {
      if 97 <= tmp[i] <= 122 {
        tmp[i] := tmp[i] - 32;
      }
    }
  }

  /** `fat32_create_entry`. */
  method CreateEntry(n: Node) returns (e: seq<Byte>)
    requires NameFits(n.name)
    ensures e == EntryOf(n) && EntryFor(e, n)
  {
    EntryOfExact(n);
    var tmp := new Byte[NAME_LEN](_ => SPACE);
    var base, ext := Base(n.name), Extension(n.name);
    CopyName(tmp, 0, base);
    CopyName(tmp, 8, ext);
    assert forall i {:trigger tmp[i]} :: 0 <= i < NAME_LEN ==> tmp[i] == PaddedChar(n.name, i);
    UpperName(tmp);
    assert tmp[..] == Name83(n.name);
    e := EntryBytes(tmp[..], if n.Directory? then ATTR_DIRECTORY else ATTR_ARCHIVE, n.cluster,
                    if n.File? then |n.data| else 0);
  }
}

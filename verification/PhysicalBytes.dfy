/** Physical memory seen byte by byte: a word holds four bytes, lowest first. */
module PhysicalBytes {
  import opened PageTables

  type Byte = b: int | 0 <= b < 256

  function ByteOf(w: nat, k: nat): Byte
    requires k < 4
  {
    match k
    case 0 => w % 256
    case 1 => w / 256 % 256
    case 2 => w / 0x1_0000 % 256
    case _ => w / 0x100_0000 % 256
  }

  /** The word with the given four bytes and whatever lies above them. */
  function Compose(b0: Byte, b1: Byte, b2: Byte, b3: Byte, high: nat): nat {
    (b0 as int) + 256 * (b1 as int) + 0x1_0000 * (b2 as int) + 0x100_0000 * (b3 as int) + 0x1_0000_0000 * high
  }

  lemma Low(q: nat, b: Byte)
    ensures (256 * q + b) % 256 == b && (256 * q + b) / 256 == q
  {
  }

  /** Shifting by 16 or 24 bits is shifting by 8 bits twice or three times. */
  lemma Shifts(w: nat)
    ensures w / 0x1_0000 == w / 256 / 256
  {
  }

  lemma ShiftsMore(w: nat)
    ensures w / 0x100_0000 == w / 0x1_0000 / 256
  {
  }

  lemma ComposeBytes(b0: Byte, b1: Byte, b2: Byte, b3: Byte, high: nat)
    ensures var w := Compose(b0, b1, b2, b3, high);
      ByteOf(w, 0) == b0 && ByteOf(w, 1) == b1 && ByteOf(w, 2) == b2 && ByteOf(w, 3) == b3
  {
    var w := Compose(b0, b1, b2, b3, high);
    var w3 := 256 * high + b3;
    var w2 := 256 * w3 + b2;
    var w1 := 256 * w2 + b1;
    assert w == 256 * w1 + b0;
    Shifts(w);
    ShiftsMore(w);
    Low(w1, b0);
    Low(w2, b1);
    Low(w3, b2);
    Low(high, b3);
  }

  /** The word with byte `k` replaced. */
  function PutByte(w: nat, k: nat, b: Byte): nat
    requires k < 4
  {
    Compose(if k == 0 then b else ByteOf(w, 0), if k == 1 then b else ByteOf(w, 1),
            if k == 2 then b else ByteOf(w, 2), if k == 3 then b else ByteOf(w, 3), w / 0x1_0000_0000)
  }

  lemma PutByteGet(w: nat, k: nat, b: Byte, j: nat)
    requires k < 4 && j < 4
    ensures ByteOf(PutByte(w, k, b), j) == if j == k then b else ByteOf(w, j)
  {
    ComposeBytes(if k == 0 then b else ByteOf(w, 0), if k == 1 then b else ByteOf(w, 1),
                 if k == 2 then b else ByteOf(w, 2), if k == 3 then b else ByteOf(w, 3), w / 0x1_0000_0000);
  }

  // ---- Bytes of physical memory ----

  function ByteAt(mem: Memory, a: nat): Byte
    requires a / 4096 in mem
  {
    ByteOf(mem[a / 4096][a % 4096 / 4], a % 4)
  }

  /** The frame of address `a` with one byte stored. */
  function FrameWith(mem: Memory, a: nat, b: Byte): Table
    requires a / 4096 in mem
  {
    var t, i := mem[a / 4096], a % 4096 / 4;
    t[i := PutByte(t[i], a % 4, b)]
  }

  lemma PutInTable(t: Table, i: nat, k: nat, b: Byte, i': nat, k': nat)
    requires i < 1024 && i' < 1024 && k < 4 && k' < 4
    ensures ByteOf(t[i := PutByte(t[i], k, b)][i'], k') == if i' == i && k' == k then b else ByteOf(t[i'], k')
  {
    PutByteGet(t[i], k, b, k');
  }

  lemma SameAddress(a: nat, c: nat)
    ensures a == c <==> a / 4096 == c / 4096 && a % 4096 / 4 == c % 4096 / 4 && a % 4 == c % 4
  {
  }

  lemma StoreByteAt(mem: Memory, a: nat, b: Byte, c: nat)
    requires a / 4096 in mem && c / 4096 in mem
    ensures ByteAt(mem[a / 4096 := FrameWith(mem, a, b)], c) == if c == a then b else ByteAt(mem, c)
  {
    SameAddress(a, c);
    PutInTable(mem[a / 4096], a % 4096 / 4, a % 4, b, c % 4096 / 4, c % 4);
  }

  // ---- Little-endian numbers in a byte sequence ----

  function Le16(s: seq<Byte>, off: nat): nat
    requires off + 2 <= |s|
  {
    (s[off] as int) + 256 * (s[off + 1] as int)
  }

  function Le32(s: seq<Byte>, off: nat): nat
    requires off + 4 <= |s|
  {
    Compose(s[off], s[off + 1], s[off + 2], s[off + 3], 0)
  }

  function EncodeLe32(v: nat): seq<Byte> { [ByteOf(v, 0), ByteOf(v, 1), ByteOf(v, 2), ByteOf(v, 3)] }
  function EncodeLe16(v: nat): seq<Byte> { [ByteOf(v, 0), ByteOf(v, 1)] }

  lemma Word32(v: nat)
    requires v < 0x1_0000_0000
    ensures Compose(ByteOf(v, 0), ByteOf(v, 1), ByteOf(v, 2), ByteOf(v, 3), 0) == v
  {
    var q1 := v / 256;
    var q2 := q1 / 256;
    var q3 := q2 / 256;
    assert v == Compose(v % 256, q1 % 256, q2 % 256, q3 % 256, 0);
    ComposeBytes(v % 256, q1 % 256, q2 % 256, q3 % 256, 0);
  }

  /** The bytes of a word are its value, lowest first. */
  lemma ByteOrder(w: nat)
    ensures (ByteOf(w, 0) as int) + 0x100 * (ByteOf(w, 1) as int) + 0x1_0000 * (ByteOf(w, 2) as int) + 0x100_0000 * (ByteOf(w, 3) as int)
      == w % 0x1_0000_0000
  {
    Shifts(w);
    ShiftsMore(w);
    var q1, b0 := Byte256(w);
    var q2, b1 := Byte256(q1);
    var q3, b2 := Byte256(q2);
    var q4, b3 := Byte256(q3);
    Low32(q4, (b0 as int) + 0x100 * (b1 as int) + 0x1_0000 * (b2 as int) + 0x100_0000 * (b3 as int));
  }

  lemma Byte256(w: nat) returns (q: nat, b: Byte)
    ensures q == w / 256 && b == w % 256 && w == 256 * q + b
  {
    q, b := w / 256, w % 256;
  }

  lemma Low32(q: nat, r: nat)
    requires r < 0x1_0000_0000
    ensures (0x1_0000_0000 * q + r) % 0x1_0000_0000 == r
  {
  }

  lemma Le32At(s: seq<Byte>, off: nat, v: nat)
    requires off + 4 <= |s| && v < 0x1_0000_0000 && s[off..off + 4] == EncodeLe32(v)
    ensures Le32(s, off) == v
  {
    Word32(v);
    assert s[off] == s[off..off + 4][0] && s[off + 1] == s[off..off + 4][1];
    assert s[off + 2] == s[off..off + 4][2] && s[off + 3] == s[off..off + 4][3];
  }

  lemma Le16At(s: seq<Byte>, off: nat, v: nat)
    requires off + 2 <= |s| && v < 0x1_0000 && s[off..off + 2] == EncodeLe16(v)
    ensures Le16(s, off) == v
  {
    assert s[off] == s[off..off + 2][0] && s[off + 1] == s[off..off + 2][1];
  }

  lemma Le32Bytes(s: seq<Byte>, off: nat)
    requires off + 4 <= |s|
    ensures EncodeLe32(Le32(s, off)) == s[off..off + 4]
  {
    ComposeBytes(s[off], s[off + 1], s[off + 2], s[off + 3], 0);
  }
}

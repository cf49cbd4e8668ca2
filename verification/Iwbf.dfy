/** The IWBF executable format: decoding and validation (`kernel/format/iwbf.c`). */
module Iwbf {
  import opened PageTables
  import opened PhysicalBytes

  const MAGIC: nat := 0x4642_5749
  const TYPE_EXEC: nat := 1
  const ARCH_I386: nat := 1
  const HEADER_SIZE: nat := 16
  const SEGMENT_SIZE: nat := 20

  datatype Header = Header(entry: nat, segmentCount: nat)
  datatype Segment = Segment(vaddr: nat, fileOff: nat, fileSize: nat, memSize: nat, flags: nat)

  /** `iwbf_parse_hdr` */
  function ParseHeader(buf: seq<Byte>): Option<Header> {
    if |buf| < HEADER_SIZE then None
    else if Le32(buf, 0) != MAGIC || Le16(buf, 4) != TYPE_EXEC || Le16(buf, 6) != ARCH_I386 || Le16(buf, 12) == 0 then None
    else Some(Header(Le32(buf, 8), Le16(buf, 12)))
  }

  /** At least one of read, write and execute, and nothing else. */
  predicate FlagsValid(flags: nat) { 1 <= flags <= 7 }

  /** `iwbf_parse_segment_hdr` */
  function ParseSegment(buf: seq<Byte>): Option<Segment> {
    if |buf| < SEGMENT_SIZE then None
    else
      var s := Segment(Le32(buf, 0), Le32(buf, 4), Le32(buf, 8), Le32(buf, 12), Le32(buf, 16));
      if s.memSize < s.fileSize || !FlagsValid(s.flags) then None else Some(s)
  }

  // ---- The format, as a writer sees it ----

  /** The sixteen bytes of a header with the given fields. */
  function EncodeFields(magic: nat, kind: nat, arch: nat, entry: nat, count: nat): seq<Byte> {
    EncodeLe32(magic) + EncodeLe16(kind) + EncodeLe16(arch) + EncodeLe32(entry) + EncodeLe16(count) + [0, 0]
  }

  function EncodeHeader(h: Header): seq<Byte> {
    EncodeFields(MAGIC, TYPE_EXEC, ARCH_I386, h.entry, h.segmentCount)
  }

  function EncodeSegment(s: Segment): seq<Byte> {
    EncodeLe32(s.vaddr) + EncodeLe32(s.fileOff) + EncodeLe32(s.fileSize) + EncodeLe32(s.memSize) + EncodeLe32(s.flags)
  }

  ghost predicate SegmentValid(s: Segment) {
    && s.vaddr < 0x1_0000_0000 && s.fileOff < 0x1_0000_0000 && s.memSize < 0x1_0000_0000
    && s.fileSize <= s.memSize && FlagsValid(s.flags)
  }

  /** A well-formed descriptor is read back as it was written, whatever follows it. */
  lemma SegmentRoundTrip(s: Segment, rest: seq<Byte>)
    requires SegmentValid(s)
    ensures ParseSegment(EncodeSegment(s) + rest) == Some(s)
  {
    var b := EncodeSegment(s) + rest;
    Le32At(b, 0, s.vaddr);
    Le32At(b, 4, s.fileOff);
    Le32At(b, 8, s.fileSize);
    Le32At(b, 12, s.memSize);
    Le32At(b, 16, s.flags);
  }

  /** What is accepted is well formed, and is the encoding of what was read. */
  lemma SegmentAccepted(buf: seq<Byte>)
    requires ParseSegment(buf).Some?
    ensures SegmentValid(ParseSegment(buf).value)
    ensures |buf| >= SEGMENT_SIZE && buf[..SEGMENT_SIZE] == EncodeSegment(ParseSegment(buf).value)
  {
    Le32Bytes(buf, 0);
    Le32Bytes(buf, 4);
    Le32Bytes(buf, 8);
    Le32Bytes(buf, 12);
    Le32Bytes(buf, 16);
    assert buf[..20] == buf[0..4] + buf[4..8] + buf[8..12] + buf[12..16] + buf[16..20];
  }

  /** The number in four bytes, lowest first. */
  function Number(b0: Byte, b1: Byte, b2: Byte, b3: Byte): nat {
    (b0 as int) + 0x100 * (b1 as int) + 0x1_0000 * (b2 as int) + 0x100_0000 * (b3 as int)
  }

  /** A descriptor is refused exactly if it is short, its file part is larger than its memory part, or its flags are not 1 to 7. */
  lemma SegmentFields(buf: seq<Byte>)
    ensures ParseSegment(buf).Some? <==>
      && |buf| >= 20 && Number(buf[8], buf[9], buf[10], buf[11]) <= Number(buf[12], buf[13], buf[14], buf[15])
      && 1 <= buf[16] <= 7 && buf[17] == 0 && buf[18] == 0 && buf[19] == 0
    ensures ParseSegment(buf).Some? ==>
      var s := ParseSegment(buf).value;
      && s.vaddr == Number(buf[0], buf[1], buf[2], buf[3]) && s.fileOff == Number(buf[4], buf[5], buf[6], buf[7])
      && s.fileSize == Number(buf[8], buf[9], buf[10], buf[11]) && s.memSize == Number(buf[12], buf[13], buf[14], buf[15])
      && s.flags == buf[16]
  {
  }

  /** A header is accepted exactly if it is long enough, has the magic "IWBF", type 1, architecture 1, and counts a segment. */
  lemma HeaderAccepted(buf: seq<Byte>)
    ensures ParseHeader(buf).Some? <==>
      && |buf| >= 16 && buf[..4] == [0x49, 0x57, 0x42, 0x46] && buf[4..8] == [1, 0, 1, 0] && (buf[12] != 0 || buf[13] != 0)
    ensures ParseHeader(buf).Some? ==>
      ParseHeader(buf).value == Header(Number(buf[8], buf[9], buf[10], buf[11]), (buf[12] as int) + 0x100 * (buf[13] as int))
  {
    if |buf| >= 16 {
      Le32Bytes(buf, 0);
      MagicBytes(buf);
      assert buf[4..8] == [buf[4], buf[5], buf[6], buf[7]];
    }
  }

  lemma MagicBytes(buf: seq<Byte>)
    requires |buf| >= 4
    ensures Le32(buf, 0) == MAGIC <==> buf[..4] == [0x49, 0x57, 0x42, 0x46]
  {
    assert buf[..4] == [buf[0], buf[1], buf[2], buf[3]];
  }

  lemma FieldsRead(magic: nat, kind: nat, arch: nat, entry: nat, count: nat, rest: seq<Byte>)
    requires magic < 0x1_0000_0000 && entry < 0x1_0000_0000 && kind < 0x1_0000 && arch < 0x1_0000 && count < 0x1_0000
    ensures var b := EncodeFields(magic, kind, arch, entry, count) + rest;
      && |b| == HEADER_SIZE + |rest| && Le32(b, 0) == magic && Le16(b, 4) == kind && Le16(b, 6) == arch
      && Le32(b, 8) == entry && Le16(b, 12) == count
  {
    var b := EncodeFields(magic, kind, arch, entry, count) + rest;
    Le32At(b, 0, magic);
    Le16At(b, 4, kind);
    Le16At(b, 6, arch);
    Le32At(b, 8, entry);
    Le16At(b, 12, count);
  }

  lemma HeaderRoundTrip(h: Header, rest: seq<Byte>)
    requires h.entry < 0x1_0000_0000 && 0 < h.segmentCount < 0x1_0000
    ensures ParseHeader(EncodeHeader(h) + rest) == Some(h)
  {
    FieldsRead(MAGIC, TYPE_EXEC, ARCH_I386, h.entry, h.segmentCount, rest);
  }
}

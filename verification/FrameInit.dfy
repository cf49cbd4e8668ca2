/** `pmm_init` of `kernel/mm/pmm.c`: from the boot memory map to the first state of the frame allocator. */
module FrameInit {
  import opened Bitmaps
  import opened FrameAllocator

  datatype Entry = Entry(base: nat, length: nat, usable: bool)

  /** Entries do not wrap and end low enough for the 32-bit frame count and its rounding to bytes. */
  ghost predicate Sane(entries: seq<Entry>) {
    forall e :: e in entries ==> e.base + e.length <= 0xFFF_FFFF_8000
  }

  /** The frame's bytes all lie inside the usable entry. */
  ghost predicate FrameIn(e: Entry, f: nat) {
    e.usable && e.base <= f * FRAME && (f + 1) * FRAME <= e.base + e.length
  }

  ghost predicate Usable(entries: seq<Entry>, f: nat) {
    exists i :: 0 <= i < |entries| && FrameIn(entries[i], f)
  }

  /** The byte range `[lo, hi)` touches frame `f`. */
  ghost predicate Touches(lo: nat, hi: nat, f: nat) {
    lo < hi && lo < (f + 1) * FRAME && f * FRAME < hi
  }

  function BitmapBytes(total: nat): (r: nat)
    ensures total <= 8 * r < total + 8
  {
    (total + 7) / 8
  }

  /** First MiB, kernel image, and the bytes counted for the bitmap behind it. */
  ghost predicate Reserved(f: nat, kernelStart: nat, kernelEnd: nat, total: nat) {
    f < 256 || Touches(kernelStart, kernelEnd, f) || Touches(kernelEnd, kernelEnd + BitmapBytes(total), f)
  }

  /** `total` is the number of frames up to the end of the highest usable entry. */
  ghost predicate Covers(entries: seq<Entry>, total: nat) {
    && (forall i :: 0 <= i < |entries| && entries[i].usable ==> entries[i].base + entries[i].length <= total * FRAME)
    && (total > 0 ==> exists i :: 0 <= i < |entries| && entries[i].usable
                                  && (total - 1) * FRAME < entries[i].base + entries[i].length)
  }

  /** Only bits up to `total` were ever counted, but the bitmap is stored in whole words: those are covered too. */
  lemma BitmapWordsReserved(f: nat, kernelStart: nat, kernelEnd: nat, total: nat)
    requires kernelEnd % FRAME == 0
    requires Touches(kernelEnd, kernelEnd + (total + 31) / 32 * 4, f)
    ensures Reserved(f, kernelStart, kernelEnd, total)
  {
    WordBytes(total);
    var q, k := kernelEnd / FRAME, (total + 31) / 32;
    assert kernelEnd == q * FRAME;
    assert f * FRAME < q * FRAME + 4 * k;
    assert 1024 * f < 1024 * q + k;
  }

  /** The words of the bitmap end less than a word after its bytes. */
  lemma WordBytes(total: nat)
    ensures BitmapBytes(total) <= 4 * ((total + 31) / 32) < BitmapBytes(total) + 4
  {
  }

  /** The 4096 bytes of frame `f` are usable, not in the first MiB, and not touched by the image and the bitmap's bytes behind it. */
  ghost predicate FreeAtBoot(entries: seq<Entry>, kernelStart: nat, kernelEnd: nat, total: nat, f: nat) {
    && (exists i :: 0 <= i < |entries| && entries[i].usable
                    && entries[i].base <= 4096 * f && 4096 * f + 4096 <= entries[i].base + entries[i].length)
    && 4096 * f >= 0x10_0000
    && (4096 * f + 4096 <= kernelStart || kernelEnd + (total + 7) / 8 <= 4096 * f)
  }

  lemma ReservedExact(f: nat, kernelStart: nat, kernelEnd: nat, total: nat)
    requires kernelStart < kernelEnd
    ensures !Reserved(f, kernelStart, kernelEnd, total) <==>
      4096 * f >= 0x10_0000 && (4096 * f + 4096 <= kernelStart || kernelEnd + (total + 7) / 8 <= 4096 * f)
  {
  }

  lemma EntryFrames(e: Entry, f: nat)
    ensures FrameIn(e, f) <==> e.usable && AlignUp(e.base) / FRAME <= f < AlignDown(e.base + e.length) / FRAME
  {
  }

  lemma TouchedFrames(lo: nat, hi: nat, f: nat)
    requires lo < hi
    ensures Touches(lo, hi, f) <==> AlignDown(lo) / FRAME <= f < AlignUp(hi) / FRAME
  {
  }

  method MaxAddr(entries: seq<Entry>) returns (max: nat)
    requires Sane(entries)
    ensures forall i :: 0 <= i < |entries| && entries[i].usable ==> entries[i].base + entries[i].length <= max
    ensures max == 0 || exists i :: 0 <= i < |entries| && entries[i].usable && entries[i].base + entries[i].length == max
    ensures max <= 0xFFF_FFFF_8000
  {
    max := 0;
    for k := 0 to |entries|
      invariant forall i :: 0 <= i < k && entries[i].usable ==> entries[i].base + entries[i].length <= max
      invariant max == 0 || exists i :: 0 <= i < k && entries[i].usable && entries[i].base + entries[i].length == max
      invariant max <= 0xFFF_FFFF_8000
    {
      if entries[k].usable {
        var entryEnd := entries[k].base + entries[k].length;
        if entryEnd > max {
          max := entryEnd;
        }
      }
    }
  }

  lemma TotalCovers(entries: seq<Entry>, max: nat)
    requires forall i :: 0 <= i < |entries| && entries[i].usable ==> entries[i].base + entries[i].length <= max
    requires max == 0 || exists i :: 0 <= i < |entries| && entries[i].usable && entries[i].base + entries[i].length == max
    ensures Covers(entries, AlignUp(max) / FRAME)
  {
    assert max <= AlignUp(max) / FRAME * FRAME < max + FRAME;
    if max > 0 {
      var i :| 0 <= i < |entries| && entries[i].usable && entries[i].base + entries[i].length == max;
      assert (AlignUp(max) / FRAME - 1) * FRAME < entries[i].base + entries[i].length;
    }
  }

  method ReserveAll(bm: Bitmap)
    requires bm.Valid()
    modifies bm`bits, bm.data
    ensures bm.Valid() && forall f :: 0 <= f < bm.nbits ==> bm.bits[f]
  {
    for i := 0 to bm.nbits
      invariant bm.Valid() && forall f :: 0 <= f < i ==> bm.bits[f]
    {
      bm.Set(i);
    }
  }

  /** One entry's frames are cleared, the others keep their bit. */
  method FreeEntry(bm: Bitmap, e: Entry)
    requires bm.Valid() && e.usable && e.base + e.length <= bm.nbits * FRAME
    modifies bm`bits, bm.data
    ensures bm.Valid() && forall f: nat :: f < bm.nbits ==> (bm.bits[f] <==> old(bm.bits)[f] && !FrameIn(e, f))
  {
    ghost var before := bm.bits;
    var start := AlignUp(e.base) / FRAME;
    var end := AlignDown(e.base + e.length) / FRAME;
    var frame := start;
    while frame < end
      invariant start <= frame <= end || start == frame
      invariant bm.Valid() && forall f :: 0 <= f < bm.nbits ==> bm.bits[f] == (before[f] && !(start <= f < frame))
    {
      bm.Clear(frame);
      frame := frame + 1;
    }
    forall f: nat | f < bm.nbits
      ensures bm.bits[f] <==> before[f] && !FrameIn(e, f)
    {
      EntryFrames(e, f);
    }
  }

  method FreeUsable(bm: Bitmap, entries: seq<Entry>)
    requires bm.Valid() && Covers(entries, bm.nbits)
    requires forall f :: 0 <= f < bm.nbits ==> bm.bits[f]
    modifies bm`bits, bm.data
    ensures bm.Valid() && forall f: nat :: f < bm.nbits ==> (!bm.bits[f] <==> Usable(entries, f))
  {
    for k := 0 to |entries|
      invariant bm.Valid() && forall f: nat :: f < bm.nbits ==> (!bm.bits[f] <==> exists i :: 0 <= i < k && FrameIn(entries[i], f))
    {
      if entries[k].usable {
        FreeEntry(bm, entries[k]);
      }
    }
  }

  /** `pmm_force_reserve_range` */
  method ForceReserve(bm: Bitmap, start: nat, pages: nat)
    requires bm.Valid()
    modifies bm`bits, bm.data
    ensures bm.Valid() && forall f :: 0 <= f < bm.nbits ==> bm.bits[f] == (old(bm.bits)[f] || start <= f < start + pages)
  {
    ghost var before := bm.bits;
    for i := 0 to pages
      invariant bm.Valid() && forall f :: 0 <= f < bm.nbits ==> bm.bits[f] == (before[f] || start <= f < start + i)
    {
      var frame := start + i;
      if frame < bm.nbits {
        bm.Set(frame);
      }
    }
  }

  /** Reserves every frame the byte range `[lo, hi)` touches. */
  method ReserveBytes(bm: Bitmap, lo: nat, hi: nat)
    requires bm.Valid() && lo <= hi && (lo == hi ==> lo % FRAME == 0)
    modifies bm`bits, bm.data
    ensures bm.Valid() && forall f: nat :: f < bm.nbits ==> (bm.bits[f] <==> old(bm.bits)[f] || Touches(lo, hi, f))
  {
    ghost var before := bm.bits;
    var first := AlignDown(lo) / FRAME;
    var end := AlignUp(hi) / FRAME;
    ForceReserve(bm, first, end - first);
    forall f: nat | f < bm.nbits
      ensures bm.bits[f] <==> before[f] || Touches(lo, hi, f)
    {
      if lo < hi { TouchedFrames(lo, hi, f); }
    }
  }

  method CountClear(bm: Bitmap) returns (count: nat)
    requires bm.Valid()
    ensures count == CountFree(bm.bits)
  {
    ghost var bits := bm.bits;
    count := 0;
    for i := 0 to bm.nbits
      invariant count == CountFree(bits[..i])
    {
      assert bits[..i + 1][..i] == bits[..i];
      var isSet := bm.Test(i);
      if !isSet {
        count := count + 1;
      }
    }
    assert bits[..bm.nbits] == bits;
  }

  /**
   * After initialisation a frame is free exactly when it lies wholly inside one usable
   * entry and outside the first MiB, the kernel image and the bitmap.
   */
  method Init(entries: seq<Entry>, kernelStart: nat, kernelEnd: nat) returns (pmm: Pmm?)
    requires Sane(entries)
    requires kernelStart < kernelEnd < 0x4000_0000 && kernelEnd % FRAME == 0
    ensures pmm == null <==> entries == []
    ensures pmm != null ==> fresh(pmm) && fresh(pmm.bm) && fresh(pmm.bm.data) && pmm.Valid() && Covers(entries, pmm.bm.nbits)
    ensures pmm != null ==> forall f: nat :: f < pmm.bm.nbits ==>
      (!pmm.bm.bits[f] <==> Usable(entries, f) && !Reserved(f, kernelStart, kernelEnd, pmm.bm.nbits))
    ensures pmm != null ==> forall f: nat {:trigger pmm.bm.bits[f]} :: f < pmm.bm.nbits ==>
      (!pmm.bm.bits[f] <==> FreeAtBoot(entries, kernelStart, kernelEnd, pmm.bm.nbits, f))
  {
    if entries == [] {
      return null;
    }
    var max := MaxAddr(entries);
    TotalCovers(entries, max);
    var bm := new Bitmap(AlignUp(max) / FRAME);
    ReserveAll(bm);
    FreeUsable(bm, entries);
    ForceReserve(bm, 0, 0x10_0000 / FRAME);
    ReserveBytes(bm, kernelStart, kernelEnd);
    ReserveBytes(bm, kernelEnd, kernelEnd + BitmapBytes(bm.nbits));
    pmm := new Pmm(bm);
    pmm.freeFrames := CountClear(bm);
    forall f: nat | f < bm.nbits
      ensures Usable(entries, f) && !Reserved(f, kernelStart, kernelEnd, bm.nbits) <==> FreeAtBoot(entries, kernelStart, kernelEnd, bm.nbits, f)
    {
      ReservedExact(f, kernelStart, kernelEnd, bm.nbits);
    }
  }
}

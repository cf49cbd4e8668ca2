/**
 * The physical frame allocator of `kernel/mm/pmm.c`: first-fit contiguous runs over a
 * bitmap, with bounds, a fallback policy and a cached count of free frames.
 */
module FrameAllocator {
  import opened Bitmaps

  const FRAME: nat := 4096
  const LOWMEM_LIMIT: nat := 0x3000_0000
  const WORD: nat := 0x1_0000_0000
  const DWORD: nat := 0x1_0000_0000_0000_0000

  datatype Policy = Strict | Fallback
  datatype Error = InvalidArgument | OutOfMemory
  datatype Frames = Run(addr: nat) | NoFrames(error: Error)
  datatype Status = Done | Refused

  // ---- Runs of frames; `used[f]` says that frame `f` is taken ----

  ghost predicate RunFree(used: seq<bool>, f: nat, n: nat) {
    f + n <= |used| && forall i :: f <= i < f + n ==> !used[i]
  }

  ghost predicate RunUsed(used: seq<bool>, f: nat, n: nat) {
    f + n <= |used| && forall i :: f <= i < f + n ==> used[i]
  }

  /** No `n` consecutive free frames lie in `[lo, hi)`. */
  ghost predicate NoRun(used: seq<bool>, lo: nat, hi: nat, n: nat) {
    forall g: nat {:trigger RunFree(used, g, n)} :: lo <= g && g + n <= hi ==> !RunFree(used, g, n)
  }

  /** `f` starts the lowest run of `n` free frames in `[lo, hi)`. */
  ghost predicate FirstRun(used: seq<bool>, lo: nat, hi: nat, n: nat, f: nat) {
    && lo <= f && f + n <= hi && RunFree(used, f, n)
    && forall g: nat {:trigger RunFree(used, g, n)} :: lo <= g < f ==> !RunFree(used, g, n)
  }

  /** The frames `[f, f + n)` set to `v`. */
  ghost function Fill(used: seq<bool>, f: nat, n: nat, v: bool): (r: seq<bool>)
    requires f + n <= |used|
    ensures |r| == |used|
    ensures forall i :: 0 <= i < |used| ==> r[i] == if f <= i < f + n then v else used[i]
  {
    seq(|used|, i requires 0 <= i < |used| => if f <= i < f + n then v else used[i])
  }

  ghost function CountFree(used: seq<bool>): nat {
    if used == [] then 0 else CountFree(used[..|used| - 1]) + if used[|used| - 1] then 0 else 1
  }

  /** The change in the number of free frames when `n` of them become used or free. */
  ghost function Delta(n: int, v: bool): int { if v then -n else n }

  lemma {:induction false} CountAfterSet(used: seq<bool>, i: nat, v: bool)
    requires i < |used| && used[i] != v
    ensures CountFree(used[i := v]) == CountFree(used) + Delta(1, v)
  {
    var n := |used| - 1;
    if i < n {
      CountAfterSet(used[..n], i, v);
      assert used[i := v][..n] == used[..n][i := v];
    } else {
      assert used[i := v][..n] == used[..n];
    }
  }

  /** Flipping a run of `n` frames changes the count by exactly `n`. */
  lemma {:induction false} CountAfterFill(used: seq<bool>, f: nat, n: nat, v: bool)
    requires f + n <= |used| && forall i :: f <= i < f + n ==> used[i] != v
    ensures CountFree(Fill(used, f, n, v)) == CountFree(used) + Delta(n, v)
  {
    if n == 0 {
      assert Fill(used, f, n, v) == used;
    } else {
      var most := Fill(used, f, n - 1, v);
      CountAfterFill(used, f, n - 1, v);
      CountAfterSet(most, f + n - 1, v);
      assert Fill(used, f, n, v) == most[f + n - 1 := v];
    }
  }

  /** Freeing what was allocated restores the map. */
  lemma FreeUndoesAlloc(used: seq<bool>, f: nat, n: nat)
    requires RunFree(used, f, n)
    ensures Fill(Fill(used, f, n, true), f, n, false) == used
    ensures RunUsed(Fill(used, f, n, true), f, n)
  {
  }

  lemma FirstRunUnique(used: seq<bool>, lo: nat, hi: nat, n: nat, f: nat, g: nat)
    requires FirstRun(used, lo, hi, n, f) && FirstRun(used, lo, hi, n, g)
    ensures f == g
  {
  }

  // ---- Addresses and frame numbers, with the truncations of the 32-bit code ----

  function AlignUp(x: nat): (r: nat)
    ensures r % 4096 == 0 && x <= r < x + 4096
  {
    (x + FRAME - 1) / FRAME * FRAME
  }

  function AlignDown(x: nat): (r: nat)
    ensures r % 4096 == 0 && r <= x < r + 4096
  {
    x / FRAME * FRAME
  }

  function AddrToFrame(addr: nat): nat { addr / FRAME % WORD }

  function StartFrame(min: nat): nat {
    if min != 0 then AddrToFrame(AlignUp(min) % DWORD) else 0
  }

  function EndFrame(max: nat, total: nat): nat {
    var m := if max != 0 then AddrToFrame(max) else total;
    if m > total then total else m
  }

  /** Below 2^44 the frame bounds are the address bounds: a run is between them when its bytes lie in `[min, max)`. */
  lemma BoundsExact(min: nat, max: nat, total: nat, f: nat, n: nat)
    requires min <= 0xFFF_FFFF_F000 && max <= 0xFFF_FFFF_FFFF && n > 0
    ensures StartFrame(min) <= f && f + n <= EndFrame(max, total) <==>
      min <= f * FRAME && f + n <= total && (max != 0 ==> (f + n) * FRAME <= max)
  {
    assert max / FRAME % WORD == max / FRAME;
    assert AlignUp(min) % DWORD == AlignUp(min) && AlignUp(min) / FRAME % WORD == (min + FRAME - 1) / FRAME;
  }

  /** One past the last frame that a low-memory request may use. */
  function LowEnd(total: nat): (end: nat)
    ensures end == if total < 0x3_0000 then total else 0x3_0000
  {
    EndFrame(LOWMEM_LIMIT, total)
  }

  /** No frame is free. */
  ghost predicate NoFrameLeft(used: seq<bool>) { NoRun(used, 0, |used|, 1) }

  /** The counter is zero exactly if no frame is free. */
  lemma {:induction false} CountNone(used: seq<bool>)
    ensures CountFree(used) == 0 <==> NoFrameLeft(used)
  {
    if used != [] {
      var n := |used| - 1;
      CountNone(used[..n]);
      if NoFrameLeft(used) {
        assert !RunFree(used, n, 1);
        forall g: nat {:trigger RunFree(used[..n], g, 1)} | g + 1 <= n ensures !RunFree(used[..n], g, 1) {
          assert !RunFree(used, g, 1);
        }
      } else {
        var g: nat :| g + 1 <= |used| && RunFree(used, g, 1);
        assert !used[g];
        if g < n { assert RunFree(used[..n], g, 1); }
      }
    }
  }

  /** Low memory has no free frame. */
  ghost predicate NoLowFrame(used: seq<bool>) { NoRun(used, 0, LowEnd(|used|), 1) }

  class Pmm {
    const bm: Bitmap
    var freeFrames: nat

    ghost predicate Valid()
      reads this, bm, bm.data
    {
      && bm.Valid() && bm.nbits < WORD
      && freeFrames == CountFree(bm.bits)
    }

    constructor (bm: Bitmap)
      requires bm.Valid()
      ensures this.bm == bm
    {
      this.bm := bm;
      freeFrames := 0;
    }

    /** The scan of `pmm_alloc`: counts consecutive free frames. */
    method FindRun(lo: nat, hi: nat, pages: nat) returns (found: bool, first: nat)
      requires Valid() && hi <= bm.nbits && pages > 0
      ensures found ==> FirstRun(bm.bits, lo, hi, pages, first)
      ensures !found ==> NoRun(bm.bits, lo, hi, pages)
    {
      ghost var used := bm.bits;
      first := 0;
      if lo >= hi {
        return false, 0;
      }
      var consecutive := 0;
      var i := lo;
      while i < hi
        invariant lo <= i <= hi && 0 <= consecutive < pages && consecutive <= i - lo
        invariant RunFree(used, i - consecutive, consecutive)
        invariant i - consecutive > lo ==> used[i - consecutive - 1]
        invariant NoRun(used, lo, i, pages)
      {
        var taken := bm.Test(i);
        if taken {
          consecutive := 0;
        } else {
          consecutive := consecutive + 1;
          if consecutive == pages {
            first := i - pages + 1;
            assert RunFree(used, first, pages);
            return true, first;
          }
        }
        i := i + 1;
        forall g: nat {:trigger RunFree(used, g, pages)} | lo <= g && g + pages <= i
          ensures !RunFree(used, g, pages)
        {
          if g + pages == i {
            assert g <= i - consecutive - 1;
          }
        }
      }
      return false, 0;
    }

    method Mark(first: nat, pages: nat)
      requires bm.Valid() && first + pages <= bm.nbits
      modifies bm`bits, bm.data
      ensures bm.Valid() && bm.bits == Fill(old(bm.bits), first, pages, true)
    {
      ghost var used := bm.bits;
      for j := 0 to pages
        invariant bm.Valid() && bm.bits == Fill(used, first, j, true)
      {
        bm.Set(first + j);
      }
    }

    method Unmark(first: nat, pages: nat)
      requires bm.Valid() && first + pages <= bm.nbits
      modifies bm`bits, bm.data
      ensures bm.Valid() && bm.bits == Fill(old(bm.bits), first, pages, false)
    {
      ghost var used := bm.bits;
      for j := 0 to pages
        invariant bm.Valid() && bm.bits == Fill(used, first, j, false)
      {
        bm.Clear(first + j);
      }
    }

    /** Finds the lowest run in `[lo, hi)` and takes it. */
    method Grab(lo: nat, hi: nat, pages: nat) returns (found: bool, first: nat)
      requires Valid() && hi <= bm.nbits && pages > 0
      modifies this, bm`bits, bm.data
      ensures Valid()
      ensures !found <==> NoRun(old(bm.bits), lo, hi, pages)
      ensures !found ==> unchanged(this) && unchanged(bm) && unchanged(bm.data)
      ensures found ==> FirstRun(old(bm.bits), lo, hi, pages, first) && Taken(old(bm.bits), bm.bits, first, pages)
      ensures found ==> freeFrames == old(freeFrames) - pages
    {
      found, first := FindRun(lo, hi, pages);
      if found {
        CountAfterFill(bm.bits, first, pages, true);
        Mark(first, pages);
        freeFrames := freeFrames - pages;
      }
    }

    /** The lowest fitting run, or under `Fallback` the lowest anywhere; nothing changes on failure. */
    method Alloc(min: nat, max: nat, pages: nat, policy: Policy) returns (r: Frames)
      requires Valid() && min < DWORD && max < DWORD && pages < WORD
      modifies this, bm`bits, bm.data
      ensures Valid()
      ensures r == NoFrames(InvalidArgument) <==> pages == 0
      ensures r == NoFrames(OutOfMemory) <==>
        && pages > 0
        && NoRun(old(bm.bits), StartFrame(min), EndFrame(max, bm.nbits), pages)
        && (policy == Fallback ==> NoRun(old(bm.bits), 0, bm.nbits, pages))
      ensures r.NoFrames? ==> unchanged(this) && unchanged(bm) && unchanged(bm.data)
      ensures r.Run? ==> r.addr % FRAME == 0 && Taken(old(bm.bits), bm.bits, r.addr / FRAME, pages)
      ensures r.Run? ==> freeFrames == old(freeFrames) - pages
      ensures r.Run? ==>
        if NoRun(old(bm.bits), StartFrame(min), EndFrame(max, bm.nbits), pages)
        then FirstRun(old(bm.bits), 0, bm.nbits, pages, r.addr / FRAME)
        else FirstRun(old(bm.bits), StartFrame(min), EndFrame(max, bm.nbits), pages, r.addr / FRAME)
      decreases policy.Fallback?
    {
      if pages == 0 {
        return NoFrames(InvalidArgument);
      }
      var startFrame := StartFrame(min);
      var maxFrame := EndFrame(max, bm.nbits);
      var found, first := Grab(startFrame, maxFrame, pages);
      if found {
        return Run(first * FRAME);
      }
      if policy == Fallback {
        r := Alloc(0, 0, pages, Strict);
        return;
      }
      return NoFrames(OutOfMemory);
    }

    method AllUsed(first: nat, pages: nat) returns (all: bool)
      requires Valid() && first + pages <= bm.nbits
      ensures all <==> RunUsed(bm.bits, first, pages)
    {
      var i := first;
      while i < first + pages
        invariant first <= i <= first + pages
        invariant RunUsed(bm.bits, first, i - first)
      {
        var taken := bm.Test(i);
        if !taken {
          return false;
        }
        i := i + 1;
      }
      return true;
    }

    /** `PMM_ALLOC_LOWMEM` */
    method AllocLowmem(pages: nat) returns (r: Frames)
      requires Valid() && pages < WORD
      modifies this, bm`bits, bm.data
      ensures Valid()
      ensures r.Run? <==> pages > 0 && !NoRun(old(bm.bits), 0, LowEnd(bm.nbits), pages)
      ensures r == NoFrames(InvalidArgument) <==> pages == 0
      ensures r.NoFrames? ==> unchanged(this) && unchanged(bm) && unchanged(bm.data)
      ensures r.Run? ==> r.addr % FRAME == 0 && freeFrames == old(freeFrames) - pages
      ensures r.Run? ==> FirstRun(old(bm.bits), 0, LowEnd(bm.nbits), pages, r.addr / FRAME)
      ensures r.Run? ==> bm.bits == Fill(old(bm.bits), r.addr / FRAME, pages, true)
    {
      r := Alloc(0, LOWMEM_LIMIT, pages, Strict);
      assert r.NoFrames? ==> r.error == InvalidArgument || r.error == OutOfMemory;
    }

    /** `PMM_ALLOC_ANY` */
    method AllocAny(pages: nat) returns (r: Frames)
      requires Valid() && pages < WORD
      modifies this, bm`bits, bm.data
      ensures Valid()
      ensures r.Run? <==> pages > 0 && !NoRun(old(bm.bits), 0, bm.nbits, pages)
      ensures r == NoFrames(InvalidArgument) <==> pages == 0
      ensures r.NoFrames? ==> unchanged(this) && unchanged(bm) && unchanged(bm.data)
      ensures r.Run? ==> r.addr % FRAME == 0 && freeFrames == old(freeFrames) - pages
      ensures r.Run? ==> FirstRun(old(bm.bits), 0, bm.nbits, pages, r.addr / FRAME)
      ensures r.Run? ==> bm.bits == Fill(old(bm.bits), r.addr / FRAME, pages, true)
    {
      r := Alloc(0, 0, pages, Strict);
      assert r.NoFrames? ==> r.error == InvalidArgument || r.error == OutOfMemory;
    }

    /** Succeeds exactly on an aligned, wholly allocated range inside the map; a refusal changes nothing. */
    method Free(addr: nat, pages: nat) returns (r: Status)
      requires Valid() && addr < DWORD && pages < WORD
      modifies this, bm`bits, bm.data
      ensures Valid()
      ensures r == Done <==> pages > 0 && addr % FRAME == 0 && RunUsed(old(bm.bits), AddrToFrame(addr), pages)
      ensures r == Done ==> bm.bits == Fill(old(bm.bits), AddrToFrame(addr), pages, false)
      ensures r == Done ==> freeFrames == old(freeFrames) + pages
      ensures r == Refused ==> unchanged(this) && unchanged(bm) && unchanged(bm.data)
    {
      if pages == 0 || addr % FRAME != 0 {
        return Refused;
      }
      var first := AddrToFrame(addr);
      if first >= bm.nbits || pages > bm.nbits - first {
        return Refused;
      }
      var taken := AllUsed(first, pages);
      if !taken {
        return Refused;
      }
      CountAfterFill(bm.bits, first, pages, false);
      Unmark(first, pages);
      freeFrames := freeFrames + pages;
      return Done;
    }
  }

  /** Exactly the `n` frames from `f` on went from free to used. */
  ghost predicate Taken(before: seq<bool>, after: seq<bool>, f: nat, n: nat) {
    RunFree(before, f, n) && after == Fill(before, f, n, true)
  }
}

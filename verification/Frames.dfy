/** The physical frame allocator of kernel/pmm.cpp: a bitmap, one bit per 4 KiB frame, set
    when the frame is in use. */
module Frames {
  import opened Bitmap

  const FRAME_SIZE: nat := 4096

  class FrameAllocator {
    const bitmap: array<bv8>
    var freeCount: nat

    /** The frame numbers in use, and those that can be handed out. */
    ghost function Used(): set<nat>
      reads bitmap
    {
      Ones(bitmap[..])
    }

    ghost function Free(): set<nat>
      reads bitmap
    {
      Zeros(bitmap[..])
    }

    ghost predicate Valid()
      reads this, bitmap
    {
      freeCount == |Free()|
    }

    /** Everything starts in use; usable memory is freed frame by frame afterwards. */
    constructor (bytes: nat)
      ensures fresh(bitmap) && bitmap.Length == bytes && Valid() && Free() == {}
    {
      bitmap := new bv8[bytes](_ => 0xFF);
      freeCount := 0;
      new;
      forall f: nat | f < 8 * bytes ensures Test(bitmap[..], f) {
        FullByte(f % 8);
      }
      assert Free() == {};
    }

    method TestBit(f: nat) returns (used: bool)
      requires f < 8 * bitmap.Length
      ensures used <==> f in Used()
      ensures used <==> f !in Free()
    {
      used := bitmap[f / 8] & Mask(f % 8) != 0;
      assert used == Test(bitmap[..], f);
    }

    method SetBit(f: nat)
      requires f < 8 * bitmap.Length
      modifies bitmap
      ensures Used() == old(Used()) + {f} && Free() == old(Free()) - {f}
    {
      SetOnes(bitmap[..], f);
      SetZeros(bitmap[..], f);
      bitmap[f / 8] := bitmap[f / 8] | Mask(f % 8);
      assert bitmap[..] == Set(old(bitmap[..]), f);
    }

    method ClearBit(f: nat)
      requires f < 8 * bitmap.Length
      modifies bitmap
      ensures Used() == old(Used()) - {f} && Free() == old(Free()) + {f}
    {
      SetOnes(bitmap[..], f);
      SetZeros(bitmap[..], f);
      bitmap[f / 8] := bitmap[f / 8] & !Mask(f % 8);
      assert bitmap[..] == Clear(old(bitmap[..]), f);
    }

    /** The lowest free frame is taken and its address returned; 0 and no change when none is free. */
    method AllocFrame() returns (addr: nat)
      requires Valid()
      modifies this, bitmap
      ensures Valid()
      ensures old(Free()) == {} ==> addr == 0 && Used() == old(Used()) && freeCount == 0
      ensures old(Free()) != {} ==>
        && addr % FRAME_SIZE == 0
        && addr / FRAME_SIZE in old(Free()) && (forall f | f in old(Free()) :: addr / FRAME_SIZE <= f)
        && Used() == old(Used()) + {addr / FRAME_SIZE} && freeCount == old(freeCount) - 1
        && Free() == old(Free()) - {addr / FRAME_SIZE}
    {
      var f := FirstFree();
      if f == 8 * bitmap.Length { return 0; }
      SetBit(f);
      freeCount := freeCount - 1;
      FrameAddress(f);
      addr := f * FRAME_SIZE;
    }

    /** The scan of alloc_frame: the lowest free frame, or the number of frames. */
    method FirstFree() returns (f: nat)
      ensures f <= 8 * bitmap.Length && forall g | g in Free() :: f <= g
      ensures if f == 8 * bitmap.Length then Free() == {} else f in Free()
    {
      f := 0;
      while f < 8 * bitmap.Length
        invariant f <= 8 * bitmap.Length
        invariant forall g | g in Free() :: f <= g
      {
        var used := TestBit(f);
        if !used { return; }
        f := f + 1;
      }
      assert Free() == {};
    }

    /** An address outside the managed memory, misaligned, or not in use is ignored. */
    method FreeFrame(addr: nat)
      requires Valid()
      modifies this, bitmap
      ensures Valid()
      ensures Used() == if addr % FRAME_SIZE == 0 then old(Used()) - {addr / FRAME_SIZE} else old(Used())
      ensures freeCount == old(freeCount) + if addr % FRAME_SIZE == 0 && addr / FRAME_SIZE in old(Used()) then 1 else 0
    {
      if addr >= 8 * bitmap.Length * FRAME_SIZE { return; }
      if addr % FRAME_SIZE != 0 { return; }
      var f := addr / FRAME_SIZE;
      var used := TestBit(f);
      if !used { return; }
      ClearBit(f);
      freeCount := freeCount + 1;
    }

    method TakeFrame(f: nat)
      requires Valid() && f < 8 * bitmap.Length
      modifies this, bitmap
      ensures Valid() && Used() == old(Used()) + {f}
    {
      var used := TestBit(f);
      if used { return; }
      SetBit(f);
      freeCount := freeCount - 1;
    }

    method GiveFrame(f: nat)
      requires Valid() && f < 8 * bitmap.Length
      modifies this, bitmap
      ensures Valid() && Used() == old(Used()) - {f}
    {
      var used := TestBit(f);
      if !used { return; }
      ClearBit(f);
      freeCount := freeCount + 1;
    }

    method TakeFrames(first: nat, last: nat)
      requires Valid() && first <= last <= 8 * bitmap.Length
      modifies this, bitmap
      ensures Valid() && Used() == old(Used()) + Span(first, last)
    {
      ghost var was := Used();
      for f := first to last
        invariant Valid() && Used() == was + Span(first, f)
      {
        SpanGrows(was, first, f);
        TakeFrame(f);
      }
    }

    method GiveFrames(first: nat, last: nat)
      requires Valid() && first <= last <= 8 * bitmap.Length
      modifies this, bitmap
      ensures Valid() && Used() == old(Used()) - Span(first, last)
    {
      ghost var was := Used();
      for f := first to last
        invariant Valid() && Used() == was - Span(first, f)
      {
        SpanGrows(was, first, f);
        GiveFrame(f);
      }
    }

    /** Every frame the range touches is in use afterwards, and no other changed. */
    method MarkRangeUsed(start: nat, end: nat)
      requires Valid()
      modifies this, bitmap
      ensures Valid() && Used() == old(Used()) + Touched(start, end, 8 * bitmap.Length)
    {
      var limit := 8 * bitmap.Length * FRAME_SIZE;
      var stop := if end > limit then limit else end;
      if start >= stop { return; }
      var first, last := start / FRAME_SIZE, (stop + FRAME_SIZE - 1) / FRAME_SIZE;
      TouchedRange(start, end, 8 * bitmap.Length);
      TakeFrames(first, last);
    }

    /** Every frame the range touches is free afterwards, even one only partly inside. */
    method MarkRangeFree(start: nat, end: nat)
      requires Valid()
      modifies this, bitmap
      ensures Valid() && Used() == old(Used()) - Touched(start, end, 8 * bitmap.Length)
    {
      var limit := 8 * bitmap.Length * FRAME_SIZE;
      var stop := if end > limit then limit else end;
      if start >= stop { return; }
      var first, last := start / FRAME_SIZE, (stop + FRAME_SIZE - 1) / FRAME_SIZE;
      TouchedRange(start, end, 8 * bitmap.Length);
      GiveFrames(first, last);
    }

    /** After init a frame is in use exactly if it lies below 1 MiB or in the kernel's own
        memory, or was in use and touches no region the firmware reports as usable. */
    method Init(regions: seq<(nat, nat)>, kernelEnd: nat)
      requires Valid() && bitmap.Length > 0
      modifies this, bitmap
      ensures Valid() && 0 in Used()
      ensures var n := 8 * bitmap.Length;
              Used() == (set f | f in old(Used()) && !Usable(regions, f, n))
                        + Touched(0, 0x10_0000, n) + Touched(0x10_0000, kernelEnd, n)
    {
      ghost var was, n := Used(), 8 * bitmap.Length;
      for i := 0 to |regions|
        invariant Valid() && Used() == (set f | f in was && !Usable(regions[..i], f, n))
      {
        var (start, length) := regions[i];
        forall f: nat | f < n
          ensures Usable(regions[..i + 1], f, n) <==> Usable(regions[..i], f, n) || InRegion(regions[i], f, n)
        {
          UsableNext(regions, i, f, n);
        }
        if start < 8 * bitmap.Length * FRAME_SIZE { MarkRangeFree(start, (start + length) % TWO_64); }
      }
      assert regions[..|regions|] == regions;
      MarkRangeUsed(0, 0x10_0000);
      MarkRangeUsed(0x10_0000, kernelEnd);
      assert 0 in Touched(0, 0x10_0000, 8 * bitmap.Length);
    }
  }

  /** The frame shares an address with a usable region; a region starting above the n managed
      frames is skipped, and the end of a region wraps at 2^64. */
  predicate InRegion(region: (nat, nat), f: nat, n: nat) {
    region.0 < n * FRAME_SIZE && Overlaps(f, region.0, (region.0 + region.1) % TWO_64)
  }

  predicate Usable(regions: seq<(nat, nat)>, f: nat, n: nat) {
    exists i | 0 <= i < |regions| :: InRegion(regions[i], f, n)
  }

  lemma {:induction false} UsableNext(regions: seq<(nat, nat)>, i: nat, f: nat, n: nat)
    requires i < |regions|
    ensures Usable(regions[..i + 1], f, n) <==> Usable(regions[..i], f, n) || InRegion(regions[i], f, n)
  {
    var s, t := regions[..i], regions[..i + 1];
    if j :| 0 <= j < |s| && InRegion(s[j], f, n) { assert t[j] == s[j]; }
    if InRegion(regions[i], f, n) { assert t[i] == regions[i]; }
  }

  const TWO_64: nat := 0x1_0000_0000_0000_0000

  function Zeros(bytes: seq<bv8>): set<nat> {
    set f | 0 <= f < 8 * |bytes| && !Test(bytes, f)
  }

  lemma {:induction false} SetZeros(bytes: seq<bv8>, f: nat)
    requires f < 8 * |bytes|
    ensures Zeros(Set(bytes, f)) == Zeros(bytes) - {f}
    ensures Zeros(Clear(bytes, f)) == Zeros(bytes) + {f}
  {
    forall g: nat | g < 8 * |bytes|
      ensures g in Zeros(Set(bytes, f)) <==> g in Zeros(bytes) - {f}
      ensures g in Zeros(Clear(bytes, f)) <==> g in Zeros(bytes) + {f}
    {
      SetTest(bytes, f, g);
    }
  }

  /** The frames that share an address with [start, end), of the n managed. */
  function Touched(start: nat, end: nat, n: nat): set<nat> {
    set f | 0 <= f < n && Overlaps(f, start, end)
  }

  predicate Overlaps(f: nat, start: nat, end: nat) {
    start < end && start < (f + 1) * FRAME_SIZE && f * FRAME_SIZE < end
  }

  lemma {:induction false} TouchedRange(start: nat, end: nat, n: nat)
    requires var stop := if end > n * FRAME_SIZE then n * FRAME_SIZE else end; start < stop
    ensures var stop := if end > n * FRAME_SIZE then n * FRAME_SIZE else end;
            var first, last := start / FRAME_SIZE, (stop + FRAME_SIZE - 1) / FRAME_SIZE;
            first <= last <= n && Touched(start, end, n) == Span(first, last)
  {
    var stop := if end > n * FRAME_SIZE then n * FRAME_SIZE else end;
    var first, last := start / FRAME_SIZE, (stop + FRAME_SIZE - 1) / FRAME_SIZE;
    forall f: nat ensures f in Touched(start, end, n) <==> f in Span(first, last) {
      assert f in Touched(start, end, n) <==> f < n && Overlaps(f, start, end);
    }
  }

  /** The frames from `first` up to but not including `last`. */
  function Span(first: nat, last: nat): (r: set<nat>)
    ensures forall f {:trigger f in r} :: f in r <==> first <= f < last
    decreases last
  {
    if last <= first then {} else Span(first, last - 1) + {last - 1}
  }

  lemma {:induction false} SpanGrows(was: set<nat>, first: nat, f: nat)
    requires first <= f
    ensures was + Span(first, f + 1) == was + Span(first, f) + {f}
    ensures was - Span(first, f + 1) == was - Span(first, f) - {f}
  {
  }

  lemma {:induction false} FrameAddress(f: nat)
    ensures f * FRAME_SIZE % FRAME_SIZE == 0 && f * FRAME_SIZE / FRAME_SIZE == f
  {
  }

  lemma {:induction false} FullByte(k: nat)
    requires k < 8
    ensures BitOf(0xFF, k)
  {
  }
}

/** When kmalloc of kernel/heap.cpp hands out a block, which one, and when it gives up. */
module HeapGrants {
  import opened HeapModel
  import opened HeapTheorems

  // ----- growth by the frames of a supply

  predicate GrowsAt(hs: seq<Heap>, supply: seq<nat>, n: int) {
    0 <= n < |supply| && n + 1 < |hs| ==> hs[n + 1] == Grow(hs[n], supply[n])
  }

  /** hs[n] is the heap hs[0] once the first n frames of the supply have been added, one by one. */
  ghost predicate Growth(hs: seq<Heap>, supply: seq<nat>) {
    |hs| == |supply| + 1 && forall n {:trigger GrowsAt(hs, supply, n)} :: GrowsAt(hs, supply, n)
  }

  lemma {:induction false} GrowthTail(hs: seq<Heap>, supply: seq<nat>)
    requires Growth(hs, supply) && supply != []
    ensures Growth(hs[1..], supply[1..])
  {
    forall n ensures GrowsAt(hs[1..], supply[1..], n) { assert GrowsAt(hs, supply, n + 1); }
  }

  /** There is such a sequence for every heap and supply. */
  lemma {:induction false} GrowthFrom(h: Heap, supply: seq<nat>) returns (hs: seq<Heap>)
    ensures Growth(hs, supply) && hs[0] == h
  {
    if supply == [] {
      hs := [h];
      forall n ensures GrowsAt(hs, supply, n) {}
    } else {
      var last := |supply| - 1;
      var most := GrowthFrom(h, supply[..last]);
      hs := most + [Grow(most[last], supply[last])];
      forall n ensures GrowsAt(hs, supply, n) { assert GrowsAt(most, supply[..last], n); }
    }
  }

  // ----- when kmalloc returns null

  ghost predicate HasFit(bs: seq<Block>, size: nat) {
    exists i :: 0 <= i < |bs| && bs[i].free && bs[i].size >= size
  }

  /** A scan after n growths, if there are frames for them, finds nothing. */
  ghost predicate MissesAfter(hs: seq<Heap>, size: nat, n: nat) {
    n < |hs| ==> !HasFit(hs[n].blocks, size)
  }

  lemma {:induction false} FirstScan(hs: seq<Heap>, size: nat)
    requires hs != []
    ensures MissesAfter(hs, size, 0) <==> FirstFit(hs[0].blocks, size) == |hs[0].blocks|
  {
  }

  lemma {:induction false} LaterScans(hs: seq<Heap>, size: nat, n: nat)
    requires n > 0 && hs != [] && MissesAfter(hs, size, 0)
    ensures (forall g: nat | g < n :: MissesAfter(hs, size, g)) <==>
            forall g: nat | g < n - 1 :: MissesAfter(hs[1..], size, g)
  {
    if forall g: nat | g < n :: MissesAfter(hs, size, g) {
      forall g: nat | g < n - 1 ensures MissesAfter(hs[1..], size, g) { assert MissesAfter(hs, size, g + 1); }
    }
    if forall g: nat | g < n - 1 :: MissesAfter(hs[1..], size, g) {
      forall g: nat | g < n ensures MissesAfter(hs, size, g) {
        if g > 0 { assert MissesAfter(hs[1..], size, g - 1); }
      }
    }
  }

  /** After a scan that found nothing. */
  lemma {:induction false} AllocateOn(hs: seq<Heap>, supply: seq<nat>, size: nat, n: nat)
    requires Growth(hs, supply) && n > 0 && FirstFit(hs[0].blocks, size) == |hs[0].blocks|
    ensures supply == [] ==> Allocate(hs[0], size, supply, n).1 == 0
    ensures supply != [] ==> Allocate(hs[0], size, supply, n) == Allocate(hs[1..][0], size, supply[1..], n - 1)
  {
    if supply != [] { assert GrowsAt(hs, supply, 0); }
  }

  lemma {:induction false} AllocateNull(hs: seq<Heap>, supply: seq<nat>, size: nat, n: nat)
    requires Growth(hs, supply)
    ensures Allocate(hs[0], size, supply, n).1 == 0 <==> forall g: nat | g < n :: MissesAfter(hs, size, g)
    decreases n
  {
    if n > 0 {
      FirstScan(hs, size);
      if FirstFit(hs[0].blocks, size) == |hs[0].blocks| {
        LaterScans(hs, size, n);
        AllocateOn(hs, supply, size, n);
        if supply != [] {
          GrowthTail(hs, supply);
          AllocateNull(hs[1..], supply[1..], size, n - 1);
        }
      }
    }
  }

  /** kmalloc returns null exactly if no free block is large enough, neither at first nor after any
      of the growths the supply allows, up to the 256th. */
  lemma {:induction false} MallocNull(hs: seq<Heap>, supply: seq<nat>, size: nat)
    requires 0 < size < TWO_64 && Growth(hs, supply)
    ensures KMalloc(hs[0], size, supply).1 == 0 <==> forall g: nat | g <= 256 :: MissesAfter(hs, AlignUp(size), g)
  {
    AllocateNull(hs, supply, AlignUp(size), ATTEMPTS);
  }

  // ----- which block it hands out

  /** Block i, the lowest free one large enough, is taken; 64 bytes or more that are left over become
      a free block of their own. */
  predicate TakenAt(bs: seq<Block>, bs': seq<Block>, i: nat, size: nat) {
    && i < |bs| && bs[i].free && bs[i].size >= size && (forall j | 0 <= j < i :: !(bs[j].free && bs[j].size >= size))
    && var addr, left := bs[i].addr, bs[i].size - size;
       bs' == if left >= 64
              then bs[..i] + [Block(addr, size, false), Block(addr + 32 + size, left - 32, true)] + bs[i + 1..]
              else bs[..i] + [Block(addr, bs[i].size, false)] + bs[i + 1..]
  }

  /** A result that takes block i of the heap h. */
  predicate Served(h: Heap, size: nat, i: nat, r: (Heap, nat)) {
    TakenAt(h.blocks, r.0.blocks, i, size) && r.0.frames == h.frames && r.1 == h.blocks[i].addr + 32
  }

  lemma {:induction false} ServedNow(h: Heap, size: nat, supply: seq<nat>, n: nat)
    requires n > 0 && FirstFit(h.blocks, size) < |h.blocks|
    ensures Served(h, size, FirstFit(h.blocks, size), Allocate(h, size, supply, n))
  {
  }

  /** After as few growths as it takes, the lowest block that fits is taken. */
  lemma {:induction false} AllocatePlaces(hs: seq<Heap>, supply: seq<nat>, size: nat, n: nat) returns (g: nat, i: nat)
    requires Growth(hs, supply) && Allocate(hs[0], size, supply, n).1 != 0
    ensures g < n && g < |hs| && Served(hs[g], size, i, Allocate(hs[0], size, supply, n))
    ensures forall e: nat | e < g :: MissesAfter(hs, size, e)
    decreases n
  {
    FirstScan(hs, size);
    i := FirstFit(hs[0].blocks, size);
    if i < |hs[0].blocks| {
      ServedNow(hs[0], size, supply, n);
      g := 0;
    } else {
      AllocateOn(hs, supply, size, n);
      GrowthTail(hs, supply);
      g, i := AllocatePlaces(hs[1..], supply[1..], size, n - 1);
      g := g + 1;
      LaterScans(hs, size, g);
    }
  }

  /** kmalloc grows the heap as little as it must, at most 256 times, and takes the lowest block
      that fits. */
  lemma {:induction false} MallocPlaces(hs: seq<Heap>, supply: seq<nat>, size: nat) returns (g: nat, i: nat)
    requires 0 < size < TWO_64 && Growth(hs, supply) && KMalloc(hs[0], size, supply).1 != 0
    ensures g <= 256 && g < |hs| && Served(hs[g], AlignUp(size), i, KMalloc(hs[0], size, supply))
    ensures forall e: nat | e < g :: MissesAfter(hs, AlignUp(size), e)
  {
    g, i := AllocatePlaces(hs, supply, AlignUp(size), ATTEMPTS);
  }

  // ----- frames above the heap

  predicate Above(h: Heap, f: nat) {
    forall g | g in h.frames :: g < f
  }

  /** The supply starts with the n frames from f. */
  predicate Consecutive(supply: seq<nat>, f: nat, n: nat) {
    n <= |supply| && forall i | 0 <= i < n :: supply[i] == f + i
  }

  lemma {:induction false} AllBelow(bs: seq<Block>, addr: nat)
    requires forall i | 0 <= i < |bs| :: bs[i].addr < addr
    ensures Position(bs, addr) == |bs|
  {
    if bs != [] { AllBelow(bs[1..], addr); }
  }

  /** A frame above all others goes to the end of the list, and into the last block if that is free
      and ends there. */
  lemma {:induction false} GrowOnTop(h: Heap, f: nat)
    requires Sound(h) && Above(h, f)
    ensures var bs, n := h.blocks, |h.blocks|;
            Grow(h, f).blocks == if n > 0 && bs[n - 1].free && End(bs[n - 1]) == f * FRAME_SIZE
                                 then bs[..n - 1] + [bs[n - 1].(size := bs[n - 1].size + FRAME_SIZE)]
                                 else bs + [FrameBlock(f)]
  {
    var bs := h.blocks;
    forall i | 0 <= i < |bs| ensures bs[i].addr < f * FRAME_SIZE {
      assert InBlock(bs[i], bs[i].addr) && Covers(bs, bs[i].addr);
      assert bs[i].addr / FRAME_SIZE < f;
    }
    AllBelow(bs, f * FRAME_SIZE);
    assert bs[..|bs|] == bs && bs[|bs|..] == [];
  }

  /** The last block is free, at least as large as n frames, and ends with frame f + n - 1. */
  predicate TopFree(bs: seq<Block>, f: nat, n: nat) {
    bs != [] &&
    var last := bs[|bs| - 1];
    last.free && last.size + HEADER >= FRAME_SIZE * n && End(last) == (f + n) * FRAME_SIZE
  }

  ghost predicate OnTop(h: Heap, f: nat, n: nat) {
    Sound(h) && Above(h, f + n) && (n > 0 ==> TopFree(h.blocks, f, n))
  }

  lemma {:induction false} NextOnTop(h: Heap, e: nat, f: nat, n: nat)
    requires OnTop(h, f, n) && e == f + n
    ensures OnTop(Grow(h, e), f, n + 1)
  {
    GrowSound(h, e);
    GrowOnTop(h, e);
    TopGrows(h.blocks, Grow(h, e).blocks, f, n);
  }

  lemma {:induction false} TopGrows(bs: seq<Block>, bs': seq<Block>, f: nat, n: nat)
    requires n > 0 ==> TopFree(bs, f, n)
    requires var k := |bs|;
             bs' == if k > 0 && bs[k - 1].free && End(bs[k - 1]) == (f + n) * FRAME_SIZE
                    then bs[..k - 1] + [bs[k - 1].(size := bs[k - 1].size + FRAME_SIZE)] else bs + [FrameBlock(f + n)]
    ensures TopFree(bs', f, n + 1)
  {
  }

  lemma {:induction false} GrowsOnTop(hs: seq<Heap>, supply: seq<nat>, f: nat, n: nat)
    requires Growth(hs, supply) && Consecutive(supply, f, n) && OnTop(hs[0], f, 0)
    ensures OnTop(hs[n], f, n)
  {
    if n > 0 {
      GrowsOnTop(hs, supply, f, n - 1);
      assert GrowsAt(hs, supply, n - 1);
      NextOnTop(hs[n - 1], supply[n - 1], f, n - 1);
    }
  }

  lemma {:induction false} FitsOnTop(bs: seq<Block>, f: nat, n: nat, size: nat)
    requires TopFree(bs, f, n) && size + HEADER <= FRAME_SIZE * n
    ensures HasFit(bs, size)
  {
    assert bs[|bs| - 1].free && bs[|bs| - 1].size >= size;
  }

  lemma {:induction false} AlignedWithin(size: nat, n: nat)
    requires 0 < size <= FRAME_SIZE * n - HEADER && n <= 256
    ensures size <= AlignUp(size) <= FRAME_SIZE * n - HEADER
  {
    AlignedEnough(size);
  }

  /** With n frames in a row above the heap, at most 256, a request of up to 4096 * n - 32 bytes is
      granted, whatever the heap looks like. */
  lemma {:induction false} MallocServes(h: Heap, size: nat, supply: seq<nat>, f: nat, n: nat)
    requires Sound(h) && Above(h, f) && Consecutive(supply, f, n) && n <= 256
    requires 0 < size <= 4096 * n - 32
    ensures KMalloc(h, size, supply).1 != 0
  {
    var hs := GrowthFrom(h, supply);
    GrowsOnTop(hs, supply, f, n);
    AlignedWithin(size, n);
    FitsOnTop(hs[n].blocks, f, n, AlignUp(size));
    assert !MissesAfter(hs, AlignUp(size), n);
    MallocNull(hs, supply, size);
  }

  /** The heap is one free block, of the n frames from f. */
  ghost predicate OneBlock(h: Heap, f: nat, n: nat) {
    && Sound(h) && Above(h, f + n)
    && h.blocks == if n == 0 then [] else [Block(f * FRAME_SIZE, FRAME_SIZE * n - HEADER, true)]
  }

  lemma {:induction false} BlockGrows(h: Heap, e: nat, f: nat, n: nat)
    requires OneBlock(h, f, n) && e == f + n
    ensures OneBlock(Grow(h, e), f, n + 1)
  {
    GrowSound(h, e);
    GrowOnTop(h, e);
  }

  /** The empty heap grown by frames in a row. */
  lemma {:induction false} EmptyGrows(hs: seq<Heap>, supply: seq<nat>, f: nat, n: nat)
    requires Growth(hs, supply) && Consecutive(supply, f, n) && hs[0] == Heap([], {})
    ensures OneBlock(hs[n], f, n)
  {
    if n == 0 {
      EmptySound();
    } else {
      EmptyGrows(hs, supply, f, n - 1);
      assert GrowsAt(hs, supply, n - 1);
      BlockGrows(hs[n - 1], supply[n - 1], f, n - 1);
    }
  }

  lemma {:induction false} EmptySound()
    ensures Sound(Heap([], {}))
  {
    assert forall i :: OrderedAt([], i);
  }

  /** On the empty heap, with frames in a row: a request is granted exactly if it fits into the
      frames there are, of which 256 are tried. */
  lemma {:induction false} EmptyHeapServes(size: nat, supply: seq<nat>, f: nat)
    requires 0 < size <= TWO_64 - 16 && Consecutive(supply, f, |supply|)
    ensures KMalloc(Heap([], {}), size, supply).1 != 0 <==>
            size <= 4096 * (if |supply| < 256 then |supply| else 256) - 32
  {
    var n := if |supply| < 256 then |supply| else 256;
    EmptySound();
    if size <= 4096 * n - 32 {
      MallocServes(Heap([], {}), size, supply, f, n);
    } else {
      var hs := GrowthFrom(Heap([], {}), supply);
      MallocNull(hs, supply, size);
      AlignedEnough(size);
      forall g: nat | g <= 256 ensures MissesAfter(hs, AlignUp(size), g) {
        if g < |hs| { EmptyGrows(hs, supply, f, g); }
      }
    }
  }
}

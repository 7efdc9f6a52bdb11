/** The heap of kernel/heap.cpp: a list of block headers threaded through memory, grown one
    frame at a time. Every method is tied to the block sequence of HeapModel. */
module HeapAllocator {
  import opened HeapModel
  import opened HeapTheorems
  import opened HeapList
  import opened HeapGrants
  import Frames

  /** The block lies between the lowest and the highest heap address, its data below the top. */
  predicate InRange(b: Block, lo: nat, hi: nat) {
    0 < lo <= b.addr && b.addr + HEADER < hi && End(b) <= hi
  }

  /** The supply is the |supply| lowest of the frames in `free`, in order; the others are left. */
  predicate LowestFrames(free: set<nat>, left: set<nat>, supply: seq<nat>) {
    && left <= free && (forall f | f in free && f !in left :: f in supply)
    && (forall i | 0 <= i < |supply| :: supply[i] in free && supply[i] !in left)
    && (forall i, j | 0 <= i < j < |supply| :: supply[i] < supply[j])
    && forall i, g | 0 <= i < |supply| && g in left :: supply[i] < g
  }

  lemma {:induction false} LowestNext(free: set<nat>, left: set<nat>, supply: seq<nat>, f: nat)
    requires LowestFrames(free, left, supply) && f in left && forall g | g in left :: f <= g
    ensures LowestFrames(free, left - {f}, supply + [f])
  {
    forall g | g in free && g !in left - {f} ensures g in supply + [f] { assert g == f || g in supply; }
  }

  /** The n frames from f are free, and none below them is. */
  predicate FramesAt(free: set<nat>, f: nat, n: nat) {
    (forall g: nat | f <= g < f + n :: g in free) && forall g | g in free :: f <= g
  }

  /** Then they are the first to be handed out. */
  lemma {:induction false} LowestRun(free: set<nat>, left: set<nat>, supply: seq<nat>, f: nat, n: nat)
    requires LowestFrames(free, left, supply) && FramesAt(free, f, n) && n <= |supply|
    ensures Consecutive(supply, f, n)
  {
    if n > 0 {
      var k := n - 1;
      LowestRun(free, left, supply, f, k);
      assert supply[k] in free && f + k in free;
      assert k > 0 ==> supply[k - 1] < supply[k];
      if f + k !in left {
        assert f + k in supply;
        var i :| 0 <= i < |supply| && supply[i] == f + k;
        assert k <= i;
      }
    }
  }

  lemma {:induction false} LowestAll(free: set<nat>, supply: seq<nat>, f: nat, n: nat)
    requires LowestFrames(free, {}, supply) && FramesAt(free, f, n)
    ensures n <= |supply|
  {
    if |supply| < n {
      LowestRun(free, {}, supply, f, |supply|);
      var next := f + |supply| in free;
    }
  }

  class Allocator {
    var mem: map<nat, Header>
    var freeListHead: nat
    var heapMin: nat
    var heapMax: nat
    const pmm: Frames.FrameAllocator
    ghost var blocks: seq<Block>
    ghost var taken: set<nat>

    ghost function Abs(): Heap
      reads this
    {
      Heap(blocks, taken)
    }

    ghost predicate Ranged()
      reads this
    {
      forall b | b in blocks :: InRange(b, heapMin, heapMax)
    }

    ghost predicate Valid()
      reads this, pmm, pmm.bitmap
    {
      && Linked(mem, freeListHead, blocks) && Healthy(Abs()) && Ranged()
      && pmm.Valid() && taken <= pmm.Used() && 0 in pmm.Used()
    }

    constructor (pmm: Frames.FrameAllocator)
      requires pmm.Valid() && 0 in pmm.Used()
      ensures Valid() && this.pmm == pmm && Abs() == Heap([], {})
    {
      this.pmm := pmm;
      mem, freeListHead, heapMin, heapMax := map[], 0, 0, 0;
      blocks, taken := [], {};
      new;
      EmptyHealthy();
      assert forall i :: LinkedAt(mem, blocks, i);
    }

    // ----- insert_free_block

    method InsertFreeBlock(block: nat)
      requires block > 0 && block in mem && Linked(mem, freeListHead, blocks) && Fits(blocks, NewBlock(mem, block))
      modifies `mem, `freeListHead, `blocks
      ensures Linked(mem, freeListHead, blocks)
      ensures blocks == InsertAt(old(blocks), Position(old(blocks), block), NewBlock(old(mem), block))
    {
      ghost var b := NewBlock(mem, block);
      LinkedOff(mem, blocks, b, mem[block].(free := true, magic := MAGIC_FREED));
      mem := mem[block := mem[block].(free := true, magic := MAGIC_FREED)];
      assert LinkedAt(mem, blocks, 0);
      if freeListHead == 0 || block < freeListHead {
        InsertAtHead(block);
      } else {
        var prev, i := FindBefore(block);
        InsertBehind(block, prev, i);
      }
    }

    method InsertAtHead(block: nat)
      requires block > 0 && block in mem && Linked(mem, freeListHead, blocks) && Fits(blocks, NewBlock(mem, block))
      requires mem[block].free && mem[block].magic == MAGIC_FREED
      requires blocks != [] ==> block < blocks[0].addr
      modifies `mem, `freeListHead, `blocks
      ensures Linked(mem, freeListHead, blocks)
      ensures blocks == InsertAt(old(blocks), Position(old(blocks), block), NewBlock(old(mem), block))
    {
      ghost var b, was, bs := NewBlock(mem, block), mem, blocks;
      PositionIs(bs, block, 0);
      InsertFirst(was, bs, b);
      assert LinkedAt(was, bs, 0);
      if freeListHead != 0 && block + HEADER + mem[block].size == freeListHead {
        mem := mem[block := mem[block].(size := mem[block].size + HEADER + mem[freeListHead].size)];
        mem := mem[block := mem[block].(next := mem[freeListHead].next)];
      } else {
        mem := mem[block := mem[block].(next := freeListHead)];
      }
      assert mem == was[block := NewHeader(bs, 0, b)];
      freeListHead := block;
      blocks := InsertAt(bs, 0, b);
    }

    /** The last block below the address. */
    method FindBefore(block: nat) returns (prev: nat, ghost i: nat)
      requires Linked(mem, freeListHead, blocks) && blocks != [] && freeListHead <= block
      requires forall k | 0 <= k < |blocks| :: blocks[k].addr != block
      ensures 0 < i <= |blocks| && prev == blocks[i - 1].addr && i == Position(blocks, block)
    {
      prev, i := freeListHead, 1;
      assert LinkedAt(mem, blocks, 0);
      while mem[prev].next != 0 && mem[prev].next < block
        invariant 0 < i <= |blocks| && prev == blocks[i - 1].addr && prev in mem && LinkedAt(mem, blocks, i - 1)
        invariant forall k | 0 <= k < i :: blocks[k].addr < block
        decreases |blocks| - i
      {
        assert LinkedAt(mem, blocks, i);
        prev, i := mem[prev].next, i + 1;
      }
      assert LinkedAt(mem, blocks, i);
      PositionIs(blocks, block, i);
    }

    method InsertBehind(block: nat, prev: nat, ghost i: nat)
      requires block > 0 && block in mem && Linked(mem, freeListHead, blocks) && Fits(blocks, NewBlock(mem, block))
      requires mem[block].free && mem[block].magic == MAGIC_FREED
      requires 0 < i <= |blocks| && prev == blocks[i - 1].addr && i == Position(blocks, block)
      modifies `mem, `blocks
      ensures Linked(mem, freeListHead, blocks)
      ensures blocks == InsertAt(old(blocks), i, NewBlock(old(mem), block))
    {
      ghost var b, was, bs := NewBlock(mem, block), mem, blocks;
      InsertAfter(was, bs, i, b);
      InsertApart(bs, i, b, i - 1);
      assert LinkedAt(was, bs, i - 1) && LinkedAt(was, bs, i);
      if i < |bs| { InsertApart(bs, i, b, i); }
      mem := mem[block := mem[block].(next := mem[prev].next)];
      var next := mem[block].next;
      if next != 0 && block + HEADER + mem[block].size == next {
        mem := mem[block := mem[block].(size := mem[block].size + HEADER + mem[next].size)];
        mem := mem[block := mem[block].(next := mem[next].next)];
      }
      ghost var half: map<nat, Header> := was[block := NewHeader(bs, i, b)];
      assert mem == half;
      if prev + HEADER + mem[prev].size == block && mem[prev].free {
        mem := mem[prev := mem[prev].(size := mem[prev].size + HEADER + mem[block].size)];
        mem := mem[prev := mem[prev].(next := mem[block].next)];
      } else {
        mem := mem[prev := mem[prev].(next := block)];
      }
      assert mem == half[prev := PrevHeader(bs, i, b)];
      blocks := InsertAt(bs, i, b);
    }

    // ----- grow_heap

    method GrowHeap() returns (grown: bool, ghost f: nat)
      requires Valid()
      modifies this, pmm, pmm.bitmap
      ensures Valid()
      ensures grown <==> old(pmm.Free()) != {}
      ensures if grown then f !in old(taken) && f in old(pmm.Free()) && Abs() == Grow(old(Abs()), f)
              else Abs() == old(Abs())
      ensures grown ==> pmm.Free() == old(pmm.Free()) - {f} && forall g | g in old(pmm.Free()) :: f <= g
      ensures !grown ==> pmm.Free() == {}
    {
      ghost var used := pmm.Used();
      var frame := pmm.AllocFrame();
      f := frame / FRAME_SIZE;
      if frame == 0 { return false, f; }
      AddFrame(frame, f);
      grown := true;
    }

    method AddFrame(frame: nat, ghost f: nat)
      requires Linked(mem, freeListHead, blocks) && Healthy(Abs()) && Ranged()
      requires frame == f * FRAME_SIZE && f !in taken && frame > 0
      modifies this
      ensures Linked(mem, freeListHead, blocks) && Healthy(Abs()) && Ranged()
      ensures Abs() == Grow(old(Abs()), f)
    {
      ghost var h := Abs();
      var header := Header(FRAME_SIZE - HEADER, true, MAGIC_FREED, 0);
      FrameFits(h, f);
      GrowSound(h, f);
      GrownAligned(h.blocks, f);
      LinkedOff(mem, blocks, FrameBlock(f), header);
      mem := mem[frame := header];
      if heapMin == 0 || frame < heapMin { heapMin := frame; }
      if frame + FRAME_SIZE > heapMax { heapMax := frame + FRAME_SIZE; }
      InsertFreeBlock(frame);
      taken := taken + {f};
      GrownRanged(h.blocks, f, heapMin, heapMax);
    }

    // ----- kmalloc

    /** The scan of kmalloc: the first free block large enough, null if none. */
    method FindFit(size: nat) returns (block: nat, ghost i: nat)
      requires Linked(mem, freeListHead, blocks)
      ensures i == FirstFit(blocks, size) && block == AddrAt(blocks, i)
    {
      block, i := freeListHead, 0;
      while block != 0
        invariant i <= |blocks| && block == AddrAt(blocks, i)
        invariant forall k | 0 <= k < i :: !(blocks[k].free && blocks[k].size >= size)
        decreases |blocks| - i
      {
        assert LinkedAt(mem, blocks, i);
        if mem[block].free && mem[block].size >= size { break; }
        block, i := mem[block].next, i + 1;
      }
      assert LinkedAt(mem, blocks, i);
      FirstFitIs(blocks, size, i);
    }

    method Place(block: nat, size: nat, ghost i: nat)
      requires Linked(mem, freeListHead, blocks) && i < |blocks| && block == blocks[i].addr && blocks[i].size >= size
      modifies `mem, `blocks
      ensures Linked(mem, freeListHead, blocks) && blocks == Placed(old(blocks), i, size)
    {
      ghost var was, bs := mem, blocks;
      assert LinkedAt(mem, blocks, i);
      PlacedLinked(mem, blocks, i, size);
      var remainder := mem[block].size - size;
      if remainder >= HEADER + MIN_SPLIT_REMAINDER {
        var newBlock := block + HEADER + size;
        mem := mem[newBlock := Header(remainder - HEADER, true, MAGIC_FREED, mem[block].next)];
        mem := mem[block := mem[block].(size := size, next := newBlock)];
      }
      mem := mem[block := mem[block].(free := false, magic := MAGIC_ALLOCATED)];
      assert mem == PlacedMem(was, bs, i, size);
      blocks := Placed(bs, i, size);
    }

    method PlaceIn(block: nat, size: nat, ghost i: nat)
      requires Linked(mem, freeListHead, blocks) && Healthy(Abs()) && Ranged()
      requires i < |blocks| && block == blocks[i].addr && blocks[i].size >= size && size % ALIGNMENT == 0
      modifies `mem, `blocks
      ensures Linked(mem, freeListHead, blocks) && Healthy(Abs()) && Ranged()
      ensures Abs() == old(Abs()).(blocks := Placed(old(blocks), i, size))
    {
      PlacedRoom(blocks, i, size);
      PlacedAligned(blocks, i, size);
      PlacedRanged(blocks, i, size, heapMin, heapMax);
      Place(block, size, i);
    }

    /** One scan and, where it finds a block, the allocation. */
    method TryFit(size: nat) returns (ptr: nat)
      requires Valid() && size % ALIGNMENT == 0
      modifies `mem, `blocks
      ensures Valid()
      ensures var i := FirstFit(old(blocks), size);
              if i < |old(blocks)| then
                ptr == old(blocks)[i].addr + HEADER && Abs() == old(Abs()).(blocks := Placed(old(blocks), i, size))
              else ptr == 0 && Abs() == old(Abs())
    {
      var block, i := FindFit(size);
      assert LinkedAt(mem, blocks, i);
      if block == 0 { return 0; }
      PlaceIn(block, size, i);
      ptr := block + HEADER;
    }

    /** One scan and, where it finds nothing, growth by a frame. */
    method Round(size: nat) returns (ptr: nat, grown: bool, ghost f: nat)
      requires Valid() && size % ALIGNMENT == 0
      modifies this, pmm, pmm.bitmap
      ensures Valid()
      ensures if grown then ptr == 0 && FirstFit(old(blocks), size) == |old(blocks)| && f !in old(taken)
              && Abs() == Grow(old(Abs()), f)
              else Ends(old(Abs()), size, Abs(), ptr)
      ensures if grown then f in old(pmm.Free()) && pmm.Free() == old(pmm.Free()) - {f}
                            && forall g | g in old(pmm.Free()) :: f <= g
              else pmm.Free() == old(pmm.Free()) && (ptr == 0 ==> pmm.Free() == {})
    {
      f := 0;
      ptr := TryFit(size);
      if ptr != 0 { return ptr, false, f; }
      grown, f := GrowHeap();
    }

    /** Scan and grow in turn, at most `limit` times. */
    method Attempt(size: nat, limit: nat) returns (ptr: nat, ghost supply: seq<nat>)
      requires Valid() && size % ALIGNMENT == 0
      modifies this, pmm, pmm.bitmap
      ensures Valid()
      ensures FreshSupply(old(Abs()), supply) && (Abs(), ptr) == Allocate(old(Abs()), size, supply, limit)
      ensures LowestFrames(old(pmm.Free()), pmm.Free(), supply)
      ensures ptr == 0 ==> |supply| == limit || pmm.Free() == {}
    {
      supply, ptr := [], 0;
      ghost var h := Abs();
      var attempt := 0;
      while attempt < limit
        invariant attempt == |supply| <= limit && Valid() && ptr == 0 && Climb(h, size, supply, Abs())
        invariant LowestFrames(old(pmm.Free()), pmm.Free(), supply)
      {
        ghost var before, was := Abs(), pmm.Free();
        var p, grown, f := Round(size);
        ptr := p;
        if !grown {
          Finished(h, size, limit, supply, before, Abs(), ptr);
          return;
        }
        ClimbOn(h, size, supply, before, f);
        LowestNext(old(pmm.Free()), was, supply, f);
        supply := supply + [f];
        attempt := attempt + 1;
      }
      Exhausted(h, size, supply, Abs());
    }

    /** The result and the new heap are what KMalloc gives for the frames taken on the way. */
    method KMalloc(request: nat) returns (ptr: nat, ghost supply: seq<nat>)
      requires Valid() && request < TWO_64
      modifies this, pmm, pmm.bitmap
      ensures Valid()
      ensures FreshSupply(old(Abs()), supply) && (Abs(), ptr) == HeapModel.KMalloc(old(Abs()), request, supply)
      ensures LowestFrames(old(pmm.Free()), pmm.Free(), supply)
      ensures ptr == 0 && request > 0 ==> |supply| == 257 || pmm.Free() == {}
      ensures forall f: nat, n: nat {:trigger FramesAt(old(pmm.Free()), f, n)} |
                FramesAt(old(pmm.Free()), f, n) && Above(old(Abs()), f) && n <= 256 && 0 < request <= 4096 * n - 32 ::
                ptr != 0
    {
      if request == 0 { return 0, []; }
      AlignedEnough(request);
      ghost var h, free := Abs(), pmm.Free();
      ptr, supply := Attempt(AlignUp(request), MAX_GROW_ATTEMPTS + 1);
      forall f: nat, n: nat | FramesAt(free, f, n) && Above(h, f) && n <= 256 && 0 < request <= 4096 * n - 32
        ensures ptr != 0
      {
        if n <= |supply| {
          LowestRun(free, pmm.Free(), supply, f, n);
          MallocServes(h, request, supply, f, n);
        } else if ptr == 0 {
          LowestAll(free, supply, f, n);
        }
      }
    }

    // ----- kfree

    method IsTrackedBlock(block: nat) returns (tracked: bool, ghost i: nat)
      requires Linked(mem, freeListHead, blocks)
      ensures if tracked then i < |blocks| && blocks[i].addr == block
              else forall k | 0 <= k < |blocks| :: blocks[k].addr != block
    {
      var b := freeListHead;
      i := 0;
      while b != 0
        invariant i <= |blocks| && b == AddrAt(blocks, i)
        invariant forall k | 0 <= k < i :: blocks[k].addr != block
        decreases |blocks| - i
      {
        if b == block { return true, i; }
        assert LinkedAt(mem, blocks, i);
        b, i := mem[b].next, i + 1;
      }
      assert LinkedAt(mem, blocks, i);
      tracked := false;
    }

    /** The block before another one, in a list intact up to there. */
    method FindPrevious(block: nat, ghost i: nat) returns (prev: nat)
      requires Ordered(blocks) && 0 < i < |blocks| && block == blocks[i].addr && freeListHead == blocks[0].addr
      requires forall k | 0 <= k < i :: LinkedAt(mem, blocks, k)
      ensures prev == blocks[i - 1].addr
    {
      prev := freeListHead;
      ghost var k := 0;
      assert LinkedAt(mem, blocks, 0);
      while mem[prev].next != 0 && mem[prev].next != block
        invariant k < i && prev == blocks[k].addr && LinkedAt(mem, blocks, k) && prev in mem
        decreases i - k
      {
        if k + 1 < i { assert LinkedAt(mem, blocks, k + 1); }
        prev, k := mem[prev].next, k + 1;
      }
      if k + 1 < i {
        assert LinkedAt(mem, blocks, k + 1);
        AddrsRise(blocks, k + 1, i);
      }
    }

    /** The end of kfree: the block is free and joins the free neighbours it touches. */
    method Release(block: nat, ghost i: nat)
      requires Linked(mem, freeListHead, blocks) && i < |blocks| && block == blocks[i].addr && !blocks[i].free
      modifies `mem, `blocks
      ensures Linked(mem, freeListHead, blocks) && blocks == Released(old(blocks), i)
    {
      ghost var was, bs := mem, blocks;
      ReleasedLinked(was, bs, i);
      MarkFree(block, i);
      ghost var half := mem;
      if freeListHead != block {
        assert forall k | 0 <= k < i :: LinkedAt(mem, bs, k);
        var prev := FindPrevious(block, i);
        assert LinkedAt(mem, bs, i - 1);
        AddrsRise(bs, i - 1, i);
        if mem[prev].next == block && mem[prev].free && prev + HEADER + mem[prev].size == block {
          mem := mem[prev := mem[prev].(size := mem[prev].size + HEADER + mem[block].size)];
          mem := mem[prev := mem[prev].(next := mem[block].next)];
        }
      } else if i > 0 {
        AddrsRise(bs, 0, i);
      }
      assert mem == ReleasedMem(was, bs, i);
      blocks := Released(bs, i);
    }

    /** The block is marked free and swallows a free block right above it. */
    method MarkFree(block: nat, ghost i: nat)
      requires Linked(mem, freeListHead, blocks) && i < |blocks| && block == blocks[i].addr
      modifies `mem
      ensures mem == old(mem)[block := FreedHeader(blocks, i)]
      ensures forall k | 0 <= k < i :: LinkedAt(mem, blocks, k)
    {
      ghost var was, bs := mem, blocks;
      assert LinkedAt(was, bs, i) && LinkedAt(was, bs, i + 1);
      if i + 1 < |bs| { AddrsRise(bs, i, i + 1); }
      mem := mem[block := mem[block].(free := true, magic := MAGIC_FREED)];
      var next := mem[block].next;
      if next != 0 && mem[next].free && block + HEADER + mem[block].size == next {
        mem := mem[block := mem[block].(size := mem[block].size + HEADER + mem[next].size)];
        mem := mem[block := mem[block].(next := mem[next].next)];
      }
      assert mem == was[block := FreedHeader(bs, i)];
      forall k | 0 <= k < i ensures LinkedAt(mem, bs, k) {
        assert LinkedAt(was, bs, k);
        AddrsRise(bs, k, i);
      }
    }

    /** Exactly the live block the pointer belongs to is freed; every other pointer is refused,
        whichever check refuses it, and changes nothing. */
    method KFree(ptr: nat) returns (freed: bool)
      requires Valid()
      modifies `mem, `blocks
      ensures Valid() && Abs() == HeapModel.KFree(old(Abs()), ptr)
      ensures freed <==> exists b :: b in Live(old(blocks)) && b.addr + HEADER == ptr
    {
      ghost var at := LiveAt(blocks, ptr);
      if at < |blocks| {
        assert AlignedAt(blocks, at) && LinkedAt(mem, blocks, at) && InRange(blocks[at], heapMin, heapMax);
        assert blocks[at] in Live(blocks);
      }
      freed := false;
      if ptr == 0 || ptr % ALIGNMENT != 0 { return; }
      if !(heapMin != 0 && heapMin <= ptr < heapMax) { return; }
      if ptr < heapMin + HEADER { return; }
      var block := ptr - HEADER;
      var tracked, i := IsTrackedBlock(block);
      if !tracked { return; }
      assert LinkedAt(mem, blocks, i);
      if mem[block].magic == MAGIC_FREED || mem[block].magic != MAGIC_ALLOCATED || mem[block].free {
        SameAddress(blocks, i, at);
        return;
      }
      SameAddress(blocks, i, at);
      ReleasedSound(blocks, i);
      ReleasedAligned(blocks, i);
      ReleasedRanged(blocks, i, heapMin, heapMax);
      Release(block, i);
      freed := true;
    }

    // ----- accounting

    method BytesInUse() returns (total: nat)
      requires Linked(mem, freeListHead, blocks)
      ensures total == InUse(blocks)
    {
      var block := freeListHead;
      ghost var i := 0;
      total := 0;
      while block != 0
        invariant i <= |blocks| && block == AddrAt(blocks, i)
        invariant total + InUse(blocks[i..]) == InUse(blocks)
        decreases |blocks| - i
      {
        assert LinkedAt(mem, blocks, i);
        assert blocks[i..][1..] == blocks[i + 1..];
        if !mem[block].free { total := total + mem[block].size; }
        block, i := mem[block].next, i + 1;
      }
      assert LinkedAt(mem, blocks, i);
      assert blocks[i..] == [];
    }

    method BytesFree() returns (total: nat)
      requires Linked(mem, freeListHead, blocks)
      ensures total == Available(blocks)
    {
      var block := freeListHead;
      ghost var i := 0;
      total := 0;
      while block != 0
        invariant i <= |blocks| && block == AddrAt(blocks, i)
        invariant total + Available(blocks[i..]) == Available(blocks)
        decreases |blocks| - i
      {
        assert LinkedAt(mem, blocks, i);
        assert blocks[i..][1..] == blocks[i + 1..];
        if mem[block].free { total := total + mem[block].size; }
        block, i := mem[block].next, i + 1;
      }
      assert LinkedAt(mem, blocks, i);
      assert blocks[i..] == [];
    }
  }

  lemma {:induction false} SameAddress(bs: seq<Block>, i: nat, at: nat)
    requires Ordered(bs) && i < |bs| && at == LiveAt(bs, bs[i].addr + HEADER)
    ensures if bs[i].free then at == |bs| else at == i
  {
    if at < |bs| && at != i {
      if at < i { AddrsRise(bs, at, i); } else { AddrsRise(bs, i, at); }
    }
  }

  lemma {:induction false} ReleasedRanged(bs: seq<Block>, i: nat, lo: nat, hi: nat)
    requires i < |bs| && forall b | b in bs :: InRange(b, lo, hi)
    ensures forall b | b in Released(bs, i) :: InRange(b, lo, hi)
  {
    var t := Released(bs, i);
    assert InRange(bs[i], lo, hi);
    assert i > 0 ==> InRange(bs[i - 1], lo, hi);
    assert i + 1 < |bs| ==> InRange(bs[i + 1], lo, hi);
  }

  lemma {:induction false} FirstFitIs(bs: seq<Block>, size: nat, i: nat)
    requires i <= |bs| && forall k | 0 <= k < i :: !(bs[k].free && bs[k].size >= size)
    requires i < |bs| ==> bs[i].free && bs[i].size >= size
    ensures FirstFit(bs, size) == i
  {
  }

  /** The end of an allocation without growth: a fit, or no fit and null. */
  predicate Ends(h: Heap, size: nat, h': Heap, ptr: nat) {
    var i := FirstFit(h.blocks, size);
    if i < |h.blocks| then ptr == h.blocks[i].addr + HEADER && h' == h.(blocks := Placed(h.blocks, i, size))
    else ptr == 0 && h' == h
  }

  /** Scans failed all the way from h to h', the heap growing by the frames of `supply`. */
  ghost predicate Climbed(h: Heap, size: nat, supply: seq<nat>, h': Heap)
    decreases |supply|
  {
    if supply == [] then h == h'
    else FirstFit(h.blocks, size) == |h.blocks| && Climbed(Grow(h, supply[0]), size, supply[1..], h')
  }

  ghost predicate Climb(h: Heap, size: nat, supply: seq<nat>, h': Heap) {
    Climbed(h, size, supply, h') && FreshSupply(h, supply) && h'.frames == h.frames + set f | f in supply
  }

  lemma {:induction false} ClimbedOn(h: Heap, size: nat, supply: seq<nat>, h': Heap, f: nat)
    requires Climbed(h, size, supply, h') && FirstFit(h'.blocks, size) == |h'.blocks|
    ensures Climbed(h, size, supply + [f], Grow(h', f))
    decreases |supply|
  {
    if supply == [] {
      assert (supply + [f])[1..] == [];
      assert Climbed(Grow(h, f), size, [], Grow(h', f));
    } else {
      assert (supply + [f])[1..] == supply[1..] + [f];
      ClimbedOn(Grow(h, supply[0]), size, supply[1..], h', f);
    }
  }

  lemma {:induction false} ClimbOn(h: Heap, size: nat, supply: seq<nat>, h': Heap, f: nat)
    requires Climb(h, size, supply, h') && FirstFit(h'.blocks, size) == |h'.blocks| && f !in h'.frames
    ensures Climb(h, size, supply + [f], Grow(h', f))
  {
    ClimbedOn(h, size, supply, h', f);
    forall i | 0 <= i < |supply| ensures supply[i] != f { assert supply[i] in supply; }
  }

  lemma {:induction false} Finished(h: Heap, size: nat, limit: nat, supply: seq<nat>, h': Heap, h'': Heap, ptr: nat)
    requires Climbed(h, size, supply, h') && |supply| < limit && Ends(h', size, h'', ptr)
    ensures Allocate(h, size, supply, limit) == (h'', ptr)
    decreases |supply|
  {
    if supply != [] { Finished(Grow(h, supply[0]), size, limit - 1, supply[1..], h', h'', ptr); }
  }

  lemma {:induction false} Exhausted(h: Heap, size: nat, supply: seq<nat>, h': Heap)
    requires Climbed(h, size, supply, h')
    ensures Allocate(h, size, supply, |supply|) == (h', 0)
    decreases |supply|
  {
    if supply != [] { Exhausted(Grow(h, supply[0]), size, supply[1..], h'); }
  }

  lemma {:induction false} PlacedRanged(bs: seq<Block>, i: nat, size: nat, lo: nat, hi: nat)
    requires i < |bs| && bs[i].size >= size && forall b | b in bs :: InRange(b, lo, hi)
    ensures forall b | b in Placed(bs, i, size) :: InRange(b, lo, hi)
  {
    assert InRange(bs[i], lo, hi);
  }

  function NewBlock(mem: map<nat, Header>, block: nat): Block
    requires block in mem
  {
    Block(block, mem[block].size, true)
  }

  /** There is room for the block at its place in the list. */
  ghost predicate Fits(bs: seq<Block>, b: Block) {
    var i := Position(bs, b.addr);
    Ordered(bs[..i] + [b] + bs[i..])
  }

  lemma {:induction false} LinkedOff(mem: map<nat, Header>, bs: seq<Block>, b: Block, h: Header)
    requires Linked(mem, AddrAt(bs, 0), bs) && Fits(bs, b)
    ensures Linked(mem[b.addr := h], AddrAt(bs, 0), bs)
    ensures forall k | 0 <= k < |bs| :: bs[k].addr != b.addr
  {
    forall k ensures LinkedAt(mem[b.addr := h], bs, k) && (0 <= k < |bs| ==> bs[k].addr != b.addr) {
      assert LinkedAt(mem, bs, k);
      if 0 <= k < |bs| { InsertApart(bs, Position(bs, b.addr), b, k); }
    }
  }

  lemma {:induction false} GrownRanged(bs: seq<Block>, f: nat, lo: nat, hi: nat)
    requires 0 < lo <= f * FRAME_SIZE && (f + 1) * FRAME_SIZE <= hi
    requires forall b | b in bs :: InRange(b, lo, hi)
    ensures forall b | b in Grown(bs, f) :: InRange(b, lo, hi)
  {
    var i, b := Position(bs, f * FRAME_SIZE), FrameBlock(f);
    assert InRange(b, lo, hi);
    assert i < |bs| ==> bs[i] in bs;
    assert i > 0 ==> bs[i - 1] in bs;
    var b' := Swallowed(bs, i, b);
    assert InRange(b', lo, hi);
  }

  lemma {:induction false} EmptyHealthy()
    ensures Healthy(Heap([], {}))
  {
    var bs: seq<Block> := [];
    assert Ordered(bs) by { forall k ensures OrderedAt(bs, k) {} }
    assert Aligned(bs) by { forall k ensures AlignedAt(bs, k) {} }
  }
}

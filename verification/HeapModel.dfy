/** The kernel heap of kernel/heap.cpp as a sequence of blocks in address order. */
module HeapModel {

  const HEADER: nat := 32
  const ALIGNMENT: nat := 16
  const MIN_SPLIT_REMAINDER: nat := 32
  const FRAME_SIZE: nat := 4096
  const ATTEMPTS: nat := 257       // attempt 0 to MAX_GROW_ATTEMPTS
  const TWO_64: nat := 0x1_0000_0000_0000_0000

  datatype Block = Block(addr: nat, size: nat, free: bool)

  function End(b: Block): nat {
    b.addr + HEADER + b.size
  }

  predicate Adjacent(a: Block, b: Block) {
    End(a) == b.addr
  }

  /** The lower of two adjacent blocks swallows the upper. */
  function Joined(a: Block, b: Block): Block {
    a.(size := a.size + HEADER + b.size)
  }

  // ----- insert_free_block

  /** How many blocks lie below an address. */
  function Position(bs: seq<Block>, addr: nat): (i: nat)
    ensures i <= |bs|
  {
    if bs == [] || bs[0].addr >= addr then 0 else 1 + Position(bs[1..], addr)
  }

  /** A free block goes between bs[..i] and bs[i..]; it joins the block above if that is
      adjacent, free or not, and the block below if that is adjacent and free. */
  function InsertAt(bs: seq<Block>, i: nat, b: Block): seq<Block>
    requires i <= |bs|
  {
    var up := i < |bs| && Adjacent(b, bs[i]);
    var b' := if up then Joined(b, bs[i]) else b;
    var rest := if up then bs[i + 1..] else bs[i..];
    if i > 0 && Adjacent(bs[i - 1], b') && bs[i - 1].free then bs[..i - 1] + [Joined(bs[i - 1], b')] + rest
    else bs[..i] + [b'] + rest
  }

  function FrameBlock(f: nat): Block {
    Block(f * FRAME_SIZE, FRAME_SIZE - HEADER, true)
  }

  function Grown(bs: seq<Block>, f: nat): seq<Block> {
    InsertAt(bs, Position(bs, f * FRAME_SIZE), FrameBlock(f))
  }

  // ----- kmalloc

  function AlignUp(size: nat): nat {
    (size + ALIGNMENT - 1) % TWO_64 / ALIGNMENT * ALIGNMENT
  }

  /** The first free block that is large enough, |bs| if there is none. */
  function FirstFit(bs: seq<Block>, size: nat): (i: nat)
    ensures i <= |bs| && (i < |bs| ==> bs[i].free && bs[i].size >= size)
    ensures forall j | 0 <= j < i :: !(bs[j].free && bs[j].size >= size)
  {
    if bs == [] then 0 else if bs[0].free && bs[0].size >= size then 0 else 1 + FirstFit(bs[1..], size)
  }

  /** The block is allocated, its tail split off when large enough to be a block. */
  function Placed(bs: seq<Block>, i: nat, size: nat): seq<Block>
    requires i < |bs| && bs[i].size >= size
  {
    var b := bs[i];
    var remainder := b.size - size;
    if remainder >= HEADER + MIN_SPLIT_REMAINDER then
      bs[..i] + [Block(b.addr, size, false), Block(b.addr + HEADER + size, remainder - HEADER, true)] + bs[i + 1..]
    else
      bs[..i] + [b.(free := false)] + bs[i + 1..]
  }

  /** The blocks, and the numbers of the frames the heap has taken so far. */
  datatype Heap = Heap(blocks: seq<Block>, frames: set<nat>)

  function Grow(h: Heap, f: nat): Heap {
    Heap(Grown(h.blocks, f), h.frames + {f})
  }

  /** The scan, then growth, at most n times; `supply` is what pmm::alloc_frame returns, in
      order, until it fails. The result is the heap and the pointer, 0 for null. */
  function Allocate(h: Heap, size: nat, supply: seq<nat>, n: nat): (Heap, nat)
    decreases n
  {
    if n == 0 then (h, 0)
    else
      var i := FirstFit(h.blocks, size);
      if i < |h.blocks| then (h.(blocks := Placed(h.blocks, i, size)), h.blocks[i].addr + HEADER)
      else if supply == [] then (h, 0)
      else Allocate(Grow(h, supply[0]), size, supply[1..], n - 1)
  }

  function KMalloc(h: Heap, size: nat, supply: seq<nat>): (Heap, nat) {
    if size == 0 then (h, 0) else Allocate(h, AlignUp(size), supply, ATTEMPTS)
  }

  // ----- kfree

  /** A live block becomes free and joins its free neighbours. */
  function Released(bs: seq<Block>, i: nat): seq<Block>
    requires i < |bs|
  {
    var b := bs[i].(free := true);
    var up := i + 1 < |bs| && bs[i + 1].free && Adjacent(b, bs[i + 1]);
    var b' := if up then Joined(b, bs[i + 1]) else b;
    var rest := if up then bs[i + 2..] else bs[i + 1..];
    if i > 0 && bs[i - 1].free && Adjacent(bs[i - 1], b') then bs[..i - 1] + [Joined(bs[i - 1], b')] + rest
    else bs[..i] + [b'] + rest
  }

  /** The live block a pointer belongs to, |bs| if none. */
  function LiveAt(bs: seq<Block>, ptr: nat): (i: nat)
    ensures i <= |bs| && (i < |bs| ==> !bs[i].free && bs[i].addr + HEADER == ptr)
    ensures i == |bs| ==> forall j | 0 <= j < |bs| :: bs[j].free || bs[j].addr + HEADER != ptr
  {
    if bs == [] then 0 else if !bs[0].free && bs[0].addr + HEADER == ptr then 0 else 1 + LiveAt(bs[1..], ptr)
  }

  function KFree(h: Heap, ptr: nat): Heap {
    var i := LiveAt(h.blocks, ptr);
    if i < |h.blocks| then h.(blocks := Released(h.blocks, i)) else h
  }

  // ----- the tiling

  /** Blocks come in address order and do not overlap. */
  predicate OrderedAt(bs: seq<Block>, i: int) {
    0 < i < |bs| ==> End(bs[i - 1]) <= bs[i].addr
  }

  ghost predicate Ordered(bs: seq<Block>) {
    forall i {:trigger OrderedAt(bs, i)} :: OrderedAt(bs, i)
  }

  predicate Before(s: seq<Block>, t: seq<Block>) {
    s != [] && t != [] ==> End(s[|s| - 1]) <= t[0].addr
  }

  lemma {:induction false} OrderedAppend(s: seq<Block>, t: seq<Block>)
    ensures Ordered(s + t) <==> Ordered(s) && Ordered(t) && Before(s, t)
  {
    var u := s + t;
    if Ordered(u) {
      forall i ensures OrderedAt(s, i) && OrderedAt(t, i) { assert OrderedAt(u, i) && OrderedAt(u, |s| + i); }
      assert OrderedAt(u, |s|);
    }
    if Ordered(s) && Ordered(t) && Before(s, t) {
      forall i ensures OrderedAt(u, i) { assert OrderedAt(s, i) && OrderedAt(t, i - |s|); }
    }
  }

  lemma {:induction false} OrderedFar(bs: seq<Block>, i: nat, j: nat)
    requires Ordered(bs) && i < j < |bs|
    ensures End(bs[i]) <= bs[j].addr
    decreases j
  {
    assert OrderedAt(bs, j);
    if i < j - 1 { OrderedFar(bs, i, j - 1); }
  }

  predicate InBlock(b: Block, a: nat) {
    b.addr <= a < End(b)
  }

  ghost predicate Covers(bs: seq<Block>, a: nat) {
    exists i :: 0 <= i < |bs| && InBlock(bs[i], a)
  }

  /** The blocks cover exactly the frames taken. */
  ghost predicate Tiles(bs: seq<Block>, frames: set<nat>) {
    forall a: nat {:trigger Covers(bs, a)} :: Covers(bs, a) <==> a / FRAME_SIZE in frames
  }

  function Total(bs: seq<Block>): nat {
    if bs == [] then 0 else HEADER + bs[0].size + Total(bs[1..])
  }

  function InUse(bs: seq<Block>): nat {
    if bs == [] then 0 else (if bs[0].free then 0 else bs[0].size) + InUse(bs[1..])
  }

  function Available(bs: seq<Block>): nat {
    if bs == [] then 0 else (if bs[0].free then bs[0].size else 0) + Available(bs[1..])
  }

  lemma {:induction false} TotalAppend(s: seq<Block>, t: seq<Block>)
    ensures Total(s + t) == Total(s) + Total(t)
  {
    if s == [] {
      assert s + t == t;
    } else {
      assert (s + t)[1..] == s[1..] + t;
      TotalAppend(s[1..], t);
    }
  }

  lemma {:induction false} ByteAccount(bs: seq<Block>)
    ensures InUse(bs) + Available(bs) + HEADER * |bs| == Total(bs)
  {
    if bs != [] { ByteAccount(bs[1..]); }
  }

  /** One stretch of blocks replaced by another over the same addresses. */
  lemma {:induction false} Replace(pre: seq<Block>, mid: seq<Block>, mid': seq<Block>, post: seq<Block>)
    requires Ordered(pre + mid + post) && Ordered(mid')
    requires mid != [] && mid' != [] && mid'[0].addr == mid[0].addr && End(mid'[|mid'| - 1]) == End(mid[|mid| - 1])
    requires forall a {:trigger Covers(mid', a)} :: Covers(mid', a) <==> Covers(mid, a)
    requires Total(mid') == Total(mid)
    ensures Ordered(pre + mid' + post) && Total(pre + mid' + post) == Total(pre + mid + post)
    ensures forall a {:trigger Covers(pre + mid' + post, a)} ::
            Covers(pre + mid' + post, a) <==> Covers(pre + mid + post, a)
  {
    var bs, bs' := pre + mid + post, pre + mid' + post;
    OrderedAppend(pre + mid, post);
    OrderedAppend(pre, mid);
    OrderedAppend(pre + mid', post);
    OrderedAppend(pre, mid');
    TotalAppend(pre + mid, post);
    TotalAppend(pre, mid);
    TotalAppend(pre + mid', post);
    TotalAppend(pre, mid');
    forall a ensures Covers(bs', a) <==> Covers(bs, a) {
      CoversAppend(pre + mid, post, a);
      CoversAppend(pre, mid, a);
      CoversAppend(pre + mid', post, a);
      CoversAppend(pre, mid', a);
      assert Covers(mid', a) <==> Covers(mid, a);
    }
  }

  lemma {:induction false} CoversAppend(s: seq<Block>, t: seq<Block>, a: nat)
    ensures Covers(s + t, a) <==> Covers(s, a) || Covers(t, a)
  {
    if i :| 0 <= i < |s| && InBlock(s[i], a) { assert (s + t)[i] == s[i]; }
    if i :| 0 <= i < |t| && InBlock(t[i], a) { assert (s + t)[|s| + i] == t[i]; }
  }
}

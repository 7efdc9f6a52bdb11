/** What every operation of the heap keeps, and what it does to the live blocks. */
module HeapTheorems {
  import opened HeapModel

  // ----- tiling and byte conservation

  /** The block list is in address order, covers exactly the frames taken, and accounts for
      every byte of them. */
  ghost predicate Sound(h: Heap) {
    && Ordered(h.blocks) && Tiles(h.blocks, h.frames)
    && Total(h.blocks) == FRAME_SIZE * |h.frames|
  }

  lemma {:induction false} CoversOne(b: Block, a: nat)
    ensures Covers([b], a) <==> InBlock(b, a)
  {
    if InBlock(b, a) { assert [b][0] == b; }
  }

  lemma {:induction false} CoversTwo(b: Block, c: Block, a: nat)
    ensures Covers([b, c], a) <==> InBlock(b, a) || InBlock(c, a)
  {
    assert [b, c] == [b] + [c];
    CoversAppend([b], [c], a);
    CoversOne(b, a);
    CoversOne(c, a);
  }

  /** Splitting a block in two, or joining two into one, in the middle of a heap. */
  lemma {:induction false} SplitSound(pre: seq<Block>, b: Block, c: Block, d: Block, post: seq<Block>)
    requires Adjacent(b, c) && d.addr == b.addr && End(d) == End(c)
    ensures Ordered(pre + [b, c] + post) <==> Ordered(pre + [d] + post)
    ensures Total(pre + [b, c] + post) == Total(pre + [d] + post)
    ensures forall a: nat {:trigger Covers(pre + [d] + post, a)} ::
              Covers(pre + [b, c] + post, a) <==> Covers(pre + [d] + post, a)
  {
    assert Ordered([b, c]) by { forall i ensures OrderedAt([b, c], i) {} }
    assert Ordered([d]) by { forall i ensures OrderedAt([d], i) {} }
    assert [b, c][1..] == [c] && [c][1..] == [];
    assert [d][1..] == [];
    assert Total([c]) == HEADER + c.size;
    assert Total([b, c]) == Total([d]);
    forall a: nat ensures Covers([b, c], a) <==> Covers([d], a) {
      CoversTwo(b, c, a);
      CoversOne(d, a);
    }
    if Ordered(pre + [b, c] + post) { Replace(pre, [b, c], [d], post); }
    if Ordered(pre + [d] + post) { Replace(pre, [d], [b, c], post); }
    TotalAppend(pre + [b, c], post);
    TotalAppend(pre, [b, c]);
    TotalAppend(pre + [d], post);
    TotalAppend(pre, [d]);
    forall a: nat ensures Covers(pre + [b, c] + post, a) <==> Covers(pre + [d] + post, a) {
      CoversAppend(pre + [b, c], post, a);
      CoversAppend(pre, [b, c], a);
      CoversAppend(pre + [d], post, a);
      CoversAppend(pre, [d], a);
    }
  }

  /** Changing nothing but flags. */
  lemma {:induction false} FlagSound(pre: seq<Block>, b: Block, c: Block, post: seq<Block>)
    requires c.addr == b.addr && c.size == b.size
    ensures Ordered(pre + [b] + post) <==> Ordered(pre + [c] + post)
    ensures Total(pre + [b] + post) == Total(pre + [c] + post)
    ensures forall a: nat {:trigger Covers(pre + [c] + post, a)} ::
              Covers(pre + [b] + post, a) <==> Covers(pre + [c] + post, a)
  {
    var bs, bs' := pre + [b] + post, pre + [c] + post;
    if Ordered(bs) { forall i ensures OrderedAt(bs', i) { assert OrderedAt(bs, i); } }
    if Ordered(bs') { forall i ensures OrderedAt(bs, i) { assert OrderedAt(bs', i); } }
    TotalAppend(pre + [b], post);
    TotalAppend(pre, [b]);
    TotalAppend(pre + [c], post);
    TotalAppend(pre, [c]);
    forall a: nat ensures Covers(bs, a) <==> Covers(bs', a) {
      if i :| 0 <= i < |bs| && InBlock(bs[i], a) { assert InBlock(bs'[i], a); }
      if i :| 0 <= i < |bs'| && InBlock(bs'[i], a) { assert InBlock(bs[i], a); }
    }
  }


  /** Same order, same bytes, same addresses covered. */
  ghost predicate SameRoom(bs: seq<Block>, bs': seq<Block>) {
    && (Ordered(bs) ==> Ordered(bs')) && Total(bs') == Total(bs)
    && forall a: nat {:trigger Covers(bs', a)} :: Covers(bs', a) <==> Covers(bs, a)
  }

  lemma {:induction false} SameRoomTwice(s: seq<Block>, t: seq<Block>, u: seq<Block>)
    requires SameRoom(s, t) && SameRoom(t, u)
    ensures SameRoom(s, u)
  {
    forall a: nat ensures Covers(u, a) <==> Covers(s, a) { assert Covers(u, a) <==> Covers(t, a); }
  }

  lemma {:induction false} PlacedRoom(bs: seq<Block>, i: nat, size: nat)
    requires i < |bs| && bs[i].size >= size
    ensures SameRoom(bs, Placed(bs, i, size))
  {
    var b, pre, post := bs[i], bs[..i], bs[i + 1..];
    assert bs == pre + [b] + post;
    var remainder := b.size - size;
    if remainder >= HEADER + MIN_SPLIT_REMAINDER {
      SplitSound(pre, Block(b.addr, size, false), Block(b.addr + HEADER + size, remainder - HEADER, true), b, post);
    } else {
      FlagSound(pre, b, b.(free := false), post);
    }
  }

  /** Two adjacent blocks become one. */
  lemma {:induction false} JoinRoom(bs: seq<Block>, i: nat)
    requires i + 1 < |bs| && Adjacent(bs[i], bs[i + 1])
    ensures SameRoom(bs, bs[..i] + [Joined(bs[i], bs[i + 1])] + bs[i + 2..])
  {
    var pre, post := bs[..i], bs[i + 2..];
    assert bs == pre + [bs[i], bs[i + 1]] + post;
    SplitSound(pre, bs[i], bs[i + 1], Joined(bs[i], bs[i + 1]), post);
  }

  // ----- the operations as insertions and joins

  function JoinAt(bs: seq<Block>, k: nat): seq<Block>
    requires k + 1 < |bs|
  {
    bs[..k] + [Joined(bs[k], bs[k + 1])] + bs[k + 2..]
  }

  /** The block at i joins its neighbours: the upper one if `up`, then the lower one if `down`. */
  function Settle(bs: seq<Block>, i: nat, up: bool, down: bool): seq<Block>
    requires i < |bs| && (up ==> i + 1 < |bs|) && (down ==> i > 0)
  {
    var s := if up then JoinAt(bs, i) else bs;
    if down then JoinAt(s, i - 1) else s
  }

  predicate JoinsUp(bs: seq<Block>, i: nat)
    requires i < |bs|
  {
    i + 1 < |bs| && Adjacent(bs[i], bs[i + 1])
  }

  predicate JoinsDown(bs: seq<Block>, i: nat)
    requires i < |bs|
  {
    i > 0 && Adjacent(bs[i - 1], bs[i]) && bs[i - 1].free
  }

  lemma {:induction false} InsertSteps(bs: seq<Block>, i: nat, b: Block)
    requires i <= |bs|
    ensures var s := bs[..i] + [b] + bs[i..];
            InsertAt(bs, i, b) == Settle(s, i, JoinsUp(s, i), JoinsDown(s, i))
  {
    var s := bs[..i] + [b] + bs[i..];
    var up := JoinsUp(s, i);
    var t := if up then JoinAt(s, i) else s;
    assert up ==> s[..i] == bs[..i] && s[i + 2..] == bs[i + 1..];
    assert t[..i] == bs[..i] && t[i + 1..] == if up then bs[i + 1..] else bs[i..];
    assert i > 0 ==> t[..i - 1] == bs[..i - 1] && t[i - 1] == bs[i - 1];
  }

  lemma {:induction false} ReleaseSteps(bs: seq<Block>, i: nat)
    requires i < |bs|
    ensures var s := bs[i := bs[i].(free := true)];
            Released(bs, i) == Settle(s, i, JoinsUp(s, i) && s[i + 1].free, JoinsDown(s, i))
  {
    var s := bs[i := bs[i].(free := true)];
    var up := JoinsUp(s, i) && s[i + 1].free;
    var t := if up then JoinAt(s, i) else s;
    assert up ==> s[..i] == bs[..i] && s[i + 2..] == bs[i + 2..];
    assert t[..i] == bs[..i] && t[i + 1..] == if up then bs[i + 2..] else bs[i + 1..];
    assert i > 0 ==> t[..i - 1] == bs[..i - 1] && t[i - 1] == bs[i - 1];
  }

  lemma {:induction false} SettleRoom(bs: seq<Block>, i: nat, up: bool, down: bool)
    requires i < |bs| && (up ==> JoinsUp(bs, i)) && (down ==> i > 0 && Adjacent(bs[i - 1], bs[i]))
    ensures SameRoom(bs, Settle(bs, i, up, down))
  {
    var s := if up then JoinAt(bs, i) else bs;
    if up { JoinRoom(bs, i); }
    if down {
      assert s[i - 1] == bs[i - 1] && s[i].addr == bs[i].addr;
      JoinRoom(s, i - 1);
      assert s[i + 1..] == s[i - 1 + 2..];
      SameRoomTwice(bs, s, JoinAt(s, i - 1));
    }
  }

  // ----- live blocks

  function Live(bs: seq<Block>): set<Block> {
    set b | b in bs && !b.free
  }

  predicate CoalescedAt(bs: seq<Block>, i: int) {
    0 < i < |bs| && Adjacent(bs[i - 1], bs[i]) ==> !(bs[i - 1].free && bs[i].free)
  }

  /** No two adjacent blocks are both free. */
  ghost predicate Coalesced(bs: seq<Block>) {
    forall i {:trigger CoalescedAt(bs, i)} :: CoalescedAt(bs, i)
  }

  lemma {:induction false} JoinLive(bs: seq<Block>, k: nat)
    requires Ordered(bs) && k + 1 < |bs| && bs[k].free
    ensures Live(JoinAt(bs, k)) == Live(bs) - {bs[k + 1]}
  {
    var t := JoinAt(bs, k);
    forall b | b in t && !b.free ensures b in bs && b != bs[k + 1] {
      var i :| 0 <= i < |t| && t[i] == b;
      if i < k {
        assert b == bs[i];
        OrderedFar(bs, i, k + 1);
      } else if i > k {
        assert b == bs[i + 1];
        OrderedFar(bs, k + 1, i + 1);
      }
    }
    forall b | b in bs && !b.free && b != bs[k + 1] ensures b in t {
      var i :| 0 <= i < |bs| && bs[i] == b;
      if i < k { assert t[i] == b; } else { assert t[i - 1] == b; }
    }
  }

  /** Settling loses a live block exactly if the upper neighbour joined is live. */
  lemma {:induction false} SettleLive(bs: seq<Block>, i: nat, up: bool, down: bool)
    requires Ordered(bs) && i < |bs| && bs[i].free && (up ==> JoinsUp(bs, i)) && (down ==> JoinsDown(bs, i))
    ensures Live(Settle(bs, i, up, down)) == if up then Live(bs) - {bs[i + 1]} else Live(bs)
  {
    var s := if up then JoinAt(bs, i) else bs;
    if up {
      JoinLive(bs, i);
      JoinRoom(bs, i);
    }
    if down {
      assert s[i - 1] == bs[i - 1] && s[i].free;
      JoinLive(s, i - 1);
    }
  }

  lemma {:induction false} SettleCoalesced(bs: seq<Block>, i: nat, up: bool, down: bool)
    requires i < |bs| && bs[i].free && (up ==> JoinsUp(bs, i)) && (down ==> JoinsDown(bs, i))
    requires !up && i + 1 < |bs| && Adjacent(bs[i], bs[i + 1]) ==> !bs[i + 1].free
    requires !down && i > 0 && Adjacent(bs[i - 1], bs[i]) ==> !bs[i - 1].free
    requires up ==> bs[i + 1].free
    requires forall k {:trigger CoalescedAt(bs, k)} | k != i && k != i + 1 :: CoalescedAt(bs, k)
    ensures Coalesced(Settle(bs, i, up, down))
  {
    var s := if up then JoinAt(bs, i) else bs;
    forall k ensures k != i ==> CoalescedAt(s, k) {
      assert k != i && k != i + 1 ==> CoalescedAt(bs, k);
      assert CoalescedAt(bs, k + 1) || k == i || k + 1 == i;
    }
    if down {
      var t := JoinAt(s, i - 1);
      forall k ensures CoalescedAt(t, k) {
        assert k != i ==> CoalescedAt(s, k);
        assert k + 1 != i ==> CoalescedAt(s, k + 1);
      }
    }
  }

  // ----- growth

  lemma {:induction false} PositionFacts(bs: seq<Block>, addr: nat)
    ensures var i := Position(bs, addr);
            (forall j | 0 <= j < i :: bs[j].addr < addr) && (i < |bs| ==> bs[i].addr >= addr)
  {
    if bs != [] && bs[0].addr < addr {
      PositionFacts(bs[1..], addr);
      assert forall j | 0 < j < |bs| :: bs[j] == bs[1..][j - 1];
    }
  }

  /** A frame the heap does not have fits between the blocks around it. */
  lemma {:induction false} FrameFits(h: Heap, f: nat)
    requires Ordered(h.blocks) && Tiles(h.blocks, h.frames) && f !in h.frames
    ensures var bs, i := h.blocks, Position(h.blocks, f * FRAME_SIZE);
            && (i > 0 ==> End(bs[i - 1]) <= f * FRAME_SIZE) && (i < |bs| ==> (f + 1) * FRAME_SIZE <= bs[i].addr)
            && Ordered(bs[..i] + [FrameBlock(f)] + bs[i..])
  {
    var bs, addr := h.blocks, f * FRAME_SIZE;
    var i := Position(bs, addr);
    PositionFacts(bs, addr);
    assert addr / FRAME_SIZE == f;
    assert !Covers(bs, addr);
    assert i > 0 ==> !InBlock(bs[i - 1], addr);
    if i < |bs| {
      assert InBlock(bs[i], bs[i].addr);
      assert Covers(bs, bs[i].addr);
      assert bs[i].addr / FRAME_SIZE != f;
    }
    assert bs == bs[..i] + bs[i..];
    OrderedAppend(bs[..i], bs[i..]);
    assert Ordered([FrameBlock(f)]) by { forall k ensures OrderedAt([FrameBlock(f)], k) {} }
    OrderedAppend(bs[..i], [FrameBlock(f)]);
    OrderedAppend(bs[..i] + [FrameBlock(f)], bs[i..]);
  }

  lemma {:induction false} GrowSound(h: Heap, f: nat)
    requires Sound(h) && f !in h.frames
    ensures Sound(Grow(h, f))
  {
    var bs := h.blocks;
    var i, b := Position(bs, f * FRAME_SIZE), FrameBlock(f);
    var s := bs[..i] + [b] + bs[i..];
    FrameFits(h, f);
    InsertSteps(bs, i, b);
    SettleRoom(s, i, JoinsUp(s, i), JoinsDown(s, i));
    InsertTotal(bs, i, b);
    forall a: nat ensures Covers(Grown(bs, f), a) <==> a / FRAME_SIZE in h.frames + {f} {
      assert Covers(Grown(bs, f), a) <==> Covers(s, a);
      InsertCovers(bs, i, b, a);
      FrameRange(f, a);
      assert Covers(bs, a) <==> a / FRAME_SIZE in h.frames;
    }
  }

  lemma {:induction false} InsertTotal(bs: seq<Block>, i: nat, b: Block)
    requires i <= |bs|
    ensures Total(bs[..i] + [b] + bs[i..]) == Total(bs) + HEADER + b.size
  {
    TotalAppend(bs[..i] + [b], bs[i..]);
    TotalAppend(bs[..i], [b]);
    TotalAppend(bs[..i], bs[i..]);
    assert bs == bs[..i] + bs[i..];
    assert Total([b]) == HEADER + b.size by { assert [b][1..] == []; }
  }

  lemma {:induction false} InsertCovers(bs: seq<Block>, i: nat, b: Block, a: nat)
    requires i <= |bs|
    ensures Covers(bs[..i] + [b] + bs[i..], a) <==> Covers(bs, a) || InBlock(b, a)
  {
    assert bs == bs[..i] + bs[i..];
    CoversAppend(bs[..i] + [b], bs[i..], a);
    CoversAppend(bs[..i], [b], a);
    CoversAppend(bs[..i], bs[i..], a);
    CoversOne(b, a);
  }

  lemma {:induction false} FrameRange(f: nat, a: nat)
    ensures InBlock(FrameBlock(f), a) <==> a / FRAME_SIZE == f
  {
  }

  /** No live block starts where the frame ends. */
  ghost predicate ClearAbove(bs: seq<Block>, f: nat) {
    forall b | b in bs && b.addr == (f + 1) * FRAME_SIZE :: b.free
  }

  /** Growing keeps the live blocks exactly when the frame does not end where one starts:
      insert_free_block joins the block above without looking whether it is free. */
  lemma {:induction false} GrowLive(h: Heap, f: nat)
    requires Ordered(h.blocks) && Tiles(h.blocks, h.frames) && f !in h.frames
    ensures Live(Grown(h.blocks, f)) == Live(h.blocks) <==> ClearAbove(h.blocks, f)
    ensures Live(Grown(h.blocks, f)) <= Live(h.blocks)
  {
    var bs := h.blocks;
    var i, b := Position(bs, f * FRAME_SIZE), FrameBlock(f);
    var s := bs[..i] + [b] + bs[i..];
    FrameFits(h, f);
    InsertSteps(bs, i, b);
    SettleLive(s, i, JoinsUp(s, i), JoinsDown(s, i));
    InsertLive(bs, i, b);
    if JoinsUp(s, i) {
      assert s[i + 1] == bs[i] && bs[i] in bs;
    }
    forall c | c in bs && c.addr == (f + 1) * FRAME_SIZE ensures i < |bs| && c == bs[i] {
      OnlyBlockAt(bs, i, (f + 1) * FRAME_SIZE, c);
    }
  }

  lemma {:induction false} InsertLive(bs: seq<Block>, i: nat, b: Block)
    requires i <= |bs| && b.free
    ensures Live(bs[..i] + [b] + bs[i..]) == Live(bs)
  {
    var s := bs[..i] + [b] + bs[i..];
    assert bs == bs[..i] + bs[i..];
    assert forall c :: c in s <==> c == b || c in bs;
  }

  lemma {:induction false} OnlyBlockAt(bs: seq<Block>, i: nat, addr: nat, c: Block)
    requires Ordered(bs) && i <= |bs| && c in bs && c.addr == addr
    requires (i > 0 ==> End(bs[i - 1]) < addr) && (i < |bs| ==> addr <= bs[i].addr)
    ensures i < |bs| && c == bs[i]
  {
    var k :| 0 <= k < |bs| && bs[k] == c;
    if k < i {
      if k < i - 1 { OrderedFar(bs, k, i - 1); }
    } else if i < k {
      OrderedFar(bs, i, k);
    }
  }

  lemma {:induction false} GrowCoalesced(h: Heap, f: nat)
    requires Ordered(h.blocks) && Tiles(h.blocks, h.frames) && f !in h.frames
    requires Coalesced(h.blocks) && ClearAbove(h.blocks, f)
    ensures Coalesced(Grown(h.blocks, f))
  {
    var bs := h.blocks;
    var i, b := Position(bs, f * FRAME_SIZE), FrameBlock(f);
    var s := bs[..i] + [b] + bs[i..];
    FrameFits(h, f);
    InsertSteps(bs, i, b);
    assert i < |bs| ==> s[i + 1] == bs[i] && bs[i] in bs;
    InsertCoalesced(bs, i, b);
    SettleCoalesced(s, i, JoinsUp(s, i), JoinsDown(s, i));
  }

  lemma {:induction false} InsertCoalesced(bs: seq<Block>, i: nat, b: Block)
    requires i <= |bs| && Coalesced(bs)
    ensures forall k {:trigger CoalescedAt(bs[..i] + [b] + bs[i..], k)} | k != i && k != i + 1 ::
              CoalescedAt(bs[..i] + [b] + bs[i..], k)
  {
    var s := bs[..i] + [b] + bs[i..];
    forall k | k != i && k != i + 1 ensures CoalescedAt(s, k) {
      if k < i {
        assert CoalescedAt(bs, k);
      } else {
        assert CoalescedAt(bs, k - 1);
      }
    }
  }

  // ----- kmalloc

  lemma {:induction false} PlacedLive(bs: seq<Block>, i: nat, size: nat)
    requires Ordered(bs) && i < |bs| && bs[i].free && bs[i].size >= size
    ensures var b := Placed(bs, i, size)[i];
            && b.addr == bs[i].addr && b.size >= size && !b.free && b !in Live(bs)
            && Live(Placed(bs, i, size)) == Live(bs) + {b}
  {
    var t := Placed(bs, i, size);
    var b := t[i];
    var n := |t| - |bs|;
    forall c | c in bs && !c.free ensures c in t {
      var k :| 0 <= k < |bs| && bs[k] == c;
      assert if k < i then t[k] == c else t[k + n] == c;
    }
    forall c | c in t && !c.free && c != b ensures c in bs {
      var k :| 0 <= k < |t| && t[k] == c;
      assert if k < i then bs[k] == c else bs[k - n] == c;
    }
    forall c | c in bs ensures c != b {
      var k :| 0 <= k < |bs| && bs[k] == c;
      if k < i { OrderedFar(bs, k, i); } else if i < k { OrderedFar(bs, i, k); }
    }
  }

  lemma {:induction false} PlacedCoalesced(bs: seq<Block>, i: nat, size: nat)
    requires Coalesced(bs) && i < |bs| && bs[i].free && bs[i].size >= size
    ensures Coalesced(Placed(bs, i, size))
  {
    var t := Placed(bs, i, size);
    forall k ensures CoalescedAt(t, k) {
      assert CoalescedAt(bs, k) && CoalescedAt(bs, k - (|t| - |bs|));
    }
  }

  ghost predicate FreshSupply(h: Heap, supply: seq<nat>) {
    && (forall i | 0 <= i < |supply| :: supply[i] !in h.frames)
    && (forall i, j | 0 <= i < j < |supply| :: supply[i] != supply[j])
  }

  lemma {:induction false} SupplyTail(h: Heap, supply: seq<nat>)
    requires FreshSupply(h, supply) && supply != []
    ensures FreshSupply(Grow(h, supply[0]), supply[1..])
  {
    assert forall i | 0 <= i < |supply[1..]| :: supply[1..][i] == supply[i + 1];
  }

  /** Every request, whatever it takes, keeps the heap sound. */
  lemma {:induction false} AllocateSound(h: Heap, size: nat, supply: seq<nat>, n: nat)
    requires Sound(h) && FreshSupply(h, supply)
    ensures Sound(Allocate(h, size, supply, n).0)
    decreases n
  {
    if n > 0 {
      var i := FirstFit(h.blocks, size);
      if i < |h.blocks| {
        PlacedRoom(h.blocks, i, size);
      } else if supply != [] {
        GrowSound(h, supply[0]);
        SupplyTail(h, supply);
        AllocateSound(Grow(h, supply[0]), size, supply[1..], n - 1);
      }
    }
  }

  /** No frame taken on the way ends where a live block starts. */
  ghost predicate CleanGrowth(h: Heap, size: nat, supply: seq<nat>, n: nat)
    decreases n
  {
    n > 0 && FirstFit(h.blocks, size) == |h.blocks| && supply != [] ==>
      ClearAbove(h.blocks, supply[0]) && CleanGrowth(Grow(h, supply[0]), size, supply[1..], n - 1)
  }

  /** What a request gets: a new live block, large enough, beside the untouched others; or
      null and no change to the live blocks. */
  ghost predicate Granted(bs: seq<Block>, bs': seq<Block>, size: nat, ptr: nat) {
    if ptr == 0 then Live(bs') == Live(bs)
    else exists b: Block {:trigger b in Live(bs')} ::
      b.addr + HEADER == ptr && b.size >= size && b !in Live(bs) && Live(bs') == Live(bs) + {b}
  }

  /** A request for `want` bytes, rounded up to `size`, is granted in the sense above exactly if
      the growth on the way is clean. */
  lemma {:induction false} AllocateGrants(h: Heap, want: nat, size: nat, supply: seq<nat>, n: nat)
    requires Sound(h) && FreshSupply(h, supply) && want <= size
    ensures var (h', ptr) := Allocate(h, size, supply, n);
            Granted(h.blocks, h'.blocks, want, ptr) <==> CleanGrowth(h, size, supply, n)
    decreases n
  {
    if n > 0 {
      var i := FirstFit(h.blocks, size);
      if i < |h.blocks| {
        PlacedLive(h.blocks, i, size);
        assert Placed(h.blocks, i, size)[i] in Live(Placed(h.blocks, i, size));
      } else if supply != [] {
        var g := Grow(h, supply[0]);
        GrowSound(h, supply[0]);
        GrowLive(h, supply[0]);
        SupplyTail(h, supply);
        AllocateGrants(g, want, size, supply[1..], n - 1);
        if !ClearAbove(h.blocks, supply[0]) {
          var lost := GrowBuries(h, supply[0]);
          BuriedStays(g, size, supply[1..], n - 1, lost.addr);
          assert lost in Live(h.blocks);
        }
      }
    }
  }

  lemma {:induction false} AllocateCoalesced(h: Heap, size: nat, supply: seq<nat>, n: nat)
    requires Sound(h) && FreshSupply(h, supply) && Coalesced(h.blocks) && CleanGrowth(h, size, supply, n)
    ensures Coalesced(Allocate(h, size, supply, n).0.blocks)
    decreases n
  {
    if n > 0 {
      var i := FirstFit(h.blocks, size);
      if i < |h.blocks| {
        PlacedCoalesced(h.blocks, i, size);
      } else if supply != [] {
        GrowSound(h, supply[0]);
        GrowCoalesced(h, supply[0]);
        SupplyTail(h, supply);
        AllocateCoalesced(Grow(h, supply[0]), size, supply[1..], n - 1);
      }
    }
  }

  // ----- blocks lost to growth

  /** The address lies inside a free block, not at its start. */
  ghost predicate Buried(bs: seq<Block>, a: nat) {
    exists i | 0 <= i < |bs| :: BuriedIn(bs[i], a)
  }

  predicate BuriedIn(b: Block, a: nat) {
    b.free && b.addr < a < End(b)
  }

  lemma {:induction false} NoneStartsThere(bs: seq<Block>, a: nat, b: Block)
    requires Ordered(bs) && Buried(bs, a) && b in bs
    ensures b.addr != a
  {
    var i :| 0 <= i < |bs| && BuriedIn(bs[i], a);
    var k :| 0 <= k < |bs| && bs[k] == b;
    if k < i { OrderedFar(bs, k, i); } else if i < k { OrderedFar(bs, i, k); }
  }

  lemma {:induction false} JoinKeepsBuried(bs: seq<Block>, k: nat, a: nat)
    requires k + 1 < |bs| && Adjacent(bs[k], bs[k + 1]) && bs[k].free && Buried(bs, a)
    ensures Buried(JoinAt(bs, k), a)
  {
    var t := JoinAt(bs, k);
    var i :| 0 <= i < |bs| && BuriedIn(bs[i], a);
    assert BuriedIn(t[if i <= k then i else i - 1], a);
  }

  lemma {:induction false} SettleKeepsBuried(bs: seq<Block>, i: nat, up: bool, down: bool, a: nat)
    requires i < |bs| && bs[i].free && (up ==> JoinsUp(bs, i)) && (down ==> JoinsDown(bs, i)) && Buried(bs, a)
    ensures Buried(Settle(bs, i, up, down), a)
  {
    var s := if up then JoinAt(bs, i) else bs;
    if up { JoinKeepsBuried(bs, i, a); }
    if down {
      assert s[i - 1] == bs[i - 1] && s[i].addr == bs[i].addr;
      JoinKeepsBuried(s, i - 1, a);
    }
  }

  lemma {:induction false} GrowKeepsBuried(bs: seq<Block>, f: nat, a: nat)
    requires Buried(bs, a)
    ensures Buried(Grown(bs, f), a)
  {
    var i, b := Position(bs, f * FRAME_SIZE), FrameBlock(f);
    var s := bs[..i] + [b] + bs[i..];
    var k :| 0 <= k < |bs| && BuriedIn(bs[k], a);
    assert BuriedIn(s[if k < i then k else k + 1], a);
    InsertSteps(bs, i, b);
    SettleKeepsBuried(s, i, JoinsUp(s, i), JoinsDown(s, i), a);
  }

  /** Unclean growth buries the live block right above the frame. */
  lemma {:induction false} GrowBuries(h: Heap, f: nat) returns (lost: Block)
    requires Ordered(h.blocks) && Tiles(h.blocks, h.frames) && f !in h.frames && !ClearAbove(h.blocks, f)
    ensures lost in Live(h.blocks) && Buried(Grown(h.blocks, f), lost.addr)
  {
    var bs := h.blocks;
    var i, b := Position(bs, f * FRAME_SIZE), FrameBlock(f);
    var s := bs[..i] + [b] + bs[i..];
    lost :| lost in bs && lost.addr == (f + 1) * FRAME_SIZE && !lost.free;
    FrameFits(h, f);
    InsertSteps(bs, i, b);
    OnlyBlockAt(bs, i, (f + 1) * FRAME_SIZE, lost);
    assert s[i + 1] == lost && JoinsUp(s, i);
    var t := JoinAt(s, i);
    assert BuriedIn(t[i], lost.addr);
    if JoinsDown(s, i) {
      assert t[i - 1] == s[i - 1] && t[i].addr == s[i].addr;
      JoinKeepsBuried(t, i - 1, lost.addr);
    }
  }

  predicate NoLiveAt(bs: seq<Block>, a: nat) {
    forall b | b in Live(bs) :: b.addr != a
  }

  lemma {:induction false} BuriedPlaced(bs: seq<Block>, i: nat, size: nat, a: nat)
    requires Ordered(bs) && i < |bs| && bs[i].free && bs[i].size >= size && Buried(bs, a)
    ensures NoLiveAt(Placed(bs, i, size), a)
  {
    forall b | b in bs ensures b.addr != a { NoneStartsThere(bs, a, b); }
    PlacedLive(bs, i, size);
    assert bs[i] in bs;
  }

  lemma {:induction false} BuriedStays(h: Heap, size: nat, supply: seq<nat>, n: nat, a: nat)
    requires Sound(h) && FreshSupply(h, supply) && Buried(h.blocks, a)
    ensures NoLiveAt(Allocate(h, size, supply, n).0.blocks, a)
    decreases n
  {
    forall b | b in h.blocks ensures b.addr != a { NoneStartsThere(h.blocks, a, b); }
    if n > 0 {
      var i := FirstFit(h.blocks, size);
      if i < |h.blocks| {
        BuriedPlaced(h.blocks, i, size, a);
      } else if supply != [] {
        GrowSound(h, supply[0]);
        GrowKeepsBuried(h.blocks, supply[0], a);
        SupplyTail(h, supply);
        BuriedStays(Grow(h, supply[0]), size, supply[1..], n - 1, a);
      }
    }
  }

  /** The aligned request is at least the request exactly up to 2^64 - 16; above that it
      wraps to 0 and kmalloc hands out a block too small. */
  lemma {:induction false} AlignedEnough(size: nat)
    requires 0 < size < TWO_64
    ensures AlignUp(size) >= size <==> size <= TWO_64 - 16
    ensures AlignUp(size) % ALIGNMENT == 0
    ensures size > TWO_64 - 16 ==> AlignUp(size) == 0
  {
  }

  /** kmalloc gives the caller a block as large as asked for, beside all live ones, or null: for
      every request up to 2^64 - 16 exactly if the growth on the way is clean. */
  lemma {:induction false} MallocGrants(h: Heap, size: nat, supply: seq<nat>)
    requires Sound(h) && FreshSupply(h, supply) && 0 < size <= TWO_64 - 16
    ensures var (h', ptr) := KMalloc(h, size, supply);
            Granted(h.blocks, h'.blocks, size, ptr) <==> CleanGrowth(h, AlignUp(size), supply, ATTEMPTS)
  {
    AlignedEnough(size);
    AllocateGrants(h, size, AlignUp(size), supply, ATTEMPTS);
  }

  // ----- kfree

  lemma {:induction false} ReleasedSound(bs: seq<Block>, i: nat)
    requires Ordered(bs) && i < |bs| && !bs[i].free
    ensures SameRoom(bs, Released(bs, i))
    ensures Live(Released(bs, i)) == Live(bs) - {bs[i]}
    ensures Coalesced(bs) ==> Coalesced(Released(bs, i))
  {
    var s := bs[i := bs[i].(free := true)];
    var up := JoinsUp(s, i) && s[i + 1].free;
    ReleaseSteps(bs, i);
    assert bs == bs[..i] + [bs[i]] + bs[i + 1..] && s == bs[..i] + [s[i]] + bs[i + 1..];
    FlagSound(bs[..i], bs[i], s[i], bs[i + 1..]);
    SettleRoom(s, i, up, JoinsDown(s, i));
    SameRoomTwice(bs, s, Released(bs, i));
    SettleLive(s, i, up, JoinsDown(s, i));
    FlagLive(bs, i);
    if Coalesced(bs) {
      forall k ensures k != i && k != i + 1 ==> CoalescedAt(s, k) { assert CoalescedAt(bs, k); }
      SettleCoalesced(s, i, up, JoinsDown(s, i));
    }
  }

  lemma {:induction false} FlagLive(bs: seq<Block>, i: nat)
    requires Ordered(bs) && i < |bs| && !bs[i].free
    ensures Live(bs[i := bs[i].(free := true)]) == Live(bs) - {bs[i]}
  {
    var s := bs[i := bs[i].(free := true)];
    forall c | c in s && !c.free ensures c in bs && c != bs[i] {
      var k :| 0 <= k < |s| && s[k] == c;
      if k < i { OrderedFar(bs, k, i); } else if i < k { OrderedFar(bs, i, k); }
    }
    forall c | c in bs && !c.free && c != bs[i] ensures c in s {
      var k :| 0 <= k < |bs| && bs[k] == c;
      assert s[k] == c;
    }
  }

  /** kfree removes exactly the live block the pointer belongs to, and does nothing for any
      other pointer: a foreign one, one into the middle of a block, or one freed before. */
  lemma {:induction false} FreeExact(h: Heap, ptr: nat)
    requires Sound(h)
    ensures Sound(KFree(h, ptr)) && (Coalesced(h.blocks) ==> Coalesced(KFree(h, ptr).blocks))
    ensures (exists b: Block {:trigger b in Live(h.blocks)} :: b in Live(h.blocks) && b.addr + HEADER == ptr) ==>
              KFree(h, ptr) != h
    ensures (forall b: Block {:trigger b in Live(h.blocks)} :: b in Live(h.blocks) ==> b.addr + HEADER != ptr) ==>
              KFree(h, ptr) == h
    ensures Live(KFree(h, ptr).blocks) == set b | b in Live(h.blocks) && b.addr + HEADER != ptr
  {
    var bs := h.blocks;
    var i := LiveAt(bs, ptr);
    if i < |bs| {
      ReleasedSound(bs, i);
      assert bs[i] in Live(bs);
      forall b | b in Live(bs) && b.addr + HEADER == ptr ensures b == bs[i] {
        var k :| 0 <= k < |bs| && bs[k] == b;
        if k < i { OrderedFar(bs, k, i); } else if i < k { OrderedFar(bs, i, k); }
      }
    }
  }

  /** Freeing what was just allocated restores the heap exactly, when it had room to begin with. */
  lemma {:induction false} FreeUndoesMalloc(h: Heap, size: nat, supply: seq<nat>)
    requires Sound(h) && Coalesced(h.blocks) && 0 < size < TWO_64
    requires FirstFit(h.blocks, AlignUp(size)) < |h.blocks|
    ensures var (h', ptr) := KMalloc(h, size, supply);
            ptr != 0 && KFree(h', ptr) == h
  {
    FreeUndoesPlace(h, FirstFit(h.blocks, AlignUp(size)), AlignUp(size));
  }

  lemma {:induction false} FreeUndoesPlace(h: Heap, i: nat, n: nat)
    requires Ordered(h.blocks) && Coalesced(h.blocks)
    requires i < |h.blocks| && h.blocks[i].free && h.blocks[i].size >= n
    ensures KFree(h.(blocks := Placed(h.blocks, i, n)), h.blocks[i].addr + HEADER) == h
  {
    PlacedRoom(h.blocks, i, n);
    OnlyLive(Placed(h.blocks, i, n), i);
    ReleaseUndoesPlace(h.blocks, i, n);
  }

  lemma {:induction false} OnlyLive(bs: seq<Block>, i: nat)
    requires Ordered(bs) && i < |bs| && !bs[i].free
    ensures LiveAt(bs, bs[i].addr + HEADER) == i
  {
    var at := LiveAt(bs, bs[i].addr + HEADER);
    if at < i { OrderedFar(bs, at, i); } else if i < at < |bs| { OrderedFar(bs, i, at); }
  }

  lemma {:induction false} ReleaseUndoesPlace(bs: seq<Block>, i: nat, n: nat)
    requires Coalesced(bs) && i < |bs| && bs[i].free && bs[i].size >= n
    ensures Released(Placed(bs, i, n), i) == bs
  {
    var t := Placed(bs, i, n);
    assert CoalescedAt(bs, i) && CoalescedAt(bs, i + 1);
    assert t[..i] == bs[..i] && bs == bs[..i] + [bs[i]] + bs[i + 1..];
    if |t| > |bs| {
      assert Joined(t[i].(free := true), t[i + 1]) == bs[i] && t[i + 2..] == bs[i + 1..];
    } else {
      assert t[i + 1..] == bs[i + 1..];
    }
  }

  // ----- alignment

  predicate AlignedAt(bs: seq<Block>, i: int) {
    0 <= i < |bs| ==> bs[i].addr % ALIGNMENT == 0 && bs[i].size % ALIGNMENT == 0
  }

  ghost predicate Aligned(bs: seq<Block>) {
    forall i {:trigger AlignedAt(bs, i)} :: AlignedAt(bs, i)
  }

  lemma {:induction false} JoinAligned(bs: seq<Block>, k: nat)
    requires Aligned(bs) && k + 1 < |bs|
    ensures Aligned(JoinAt(bs, k))
  {
    forall i ensures AlignedAt(JoinAt(bs, k), i) {
      assert AlignedAt(bs, i) && AlignedAt(bs, i + 1);
    }
  }

  lemma {:induction false} SettleAligned(bs: seq<Block>, i: nat, up: bool, down: bool)
    requires Aligned(bs) && i < |bs| && (up ==> i + 1 < |bs|) && (down ==> i > 0)
    ensures Aligned(Settle(bs, i, up, down))
  {
    var s := if up then JoinAt(bs, i) else bs;
    if up { JoinAligned(bs, i); }
    if down { JoinAligned(s, i - 1); }
  }

  lemma {:induction false} PlacedAligned(bs: seq<Block>, i: nat, size: nat)
    requires Aligned(bs) && i < |bs| && bs[i].size >= size && size % ALIGNMENT == 0
    ensures Aligned(Placed(bs, i, size))
  {
    var t := Placed(bs, i, size);
    assert AlignedAt(bs, i);
    forall k ensures AlignedAt(t, k) {
      assert AlignedAt(bs, k) && AlignedAt(bs, k - 1);
    }
  }

  lemma {:induction false} GrownAligned(bs: seq<Block>, f: nat)
    requires Aligned(bs)
    ensures Aligned(Grown(bs, f))
  {
    var i, b := Position(bs, f * FRAME_SIZE), FrameBlock(f);
    var s := bs[..i] + [b] + bs[i..];
    InsertSteps(bs, i, b);
    forall k ensures AlignedAt(s, k) { assert AlignedAt(bs, k) && AlignedAt(bs, k - 1); }
    SettleAligned(s, i, JoinsUp(s, i), JoinsDown(s, i));
  }

  lemma {:induction false} ReleasedAligned(bs: seq<Block>, i: nat)
    requires Aligned(bs) && i < |bs|
    ensures Aligned(Released(bs, i))
  {
    var s := bs[i := bs[i].(free := true)];
    ReleaseSteps(bs, i);
    forall k ensures AlignedAt(s, k) { assert AlignedAt(bs, k); }
    SettleAligned(s, i, JoinsUp(s, i) && s[i + 1].free, JoinsDown(s, i));
  }

  ghost predicate AlignedResult(r: (Heap, nat)) {
    Aligned(r.0.blocks) && r.1 % ALIGNMENT == 0
  }

  lemma {:induction false} FitAligned(h: Heap, size: nat, i: nat)
    requires Aligned(h.blocks) && size % ALIGNMENT == 0 && i < |h.blocks| && h.blocks[i].size >= size
    ensures AlignedResult((h.(blocks := Placed(h.blocks, i, size)), h.blocks[i].addr + HEADER))
  {
    assert AlignedAt(h.blocks, i);
    PlacedAligned(h.blocks, i, size);
  }

  lemma {:induction false} AllocateAligned(h: Heap, size: nat, supply: seq<nat>, n: nat)
    requires Aligned(h.blocks) && size % ALIGNMENT == 0
    ensures AlignedResult(Allocate(h, size, supply, n))
    decreases n
  {
    if n > 0 {
      var i := FirstFit(h.blocks, size);
      if i < |h.blocks| {
        FitAligned(h, size, i);
      } else if supply != [] {
        GrownAligned(h.blocks, supply[0]);
        AllocateAligned(Grow(h, supply[0]), size, supply[1..], n - 1);
      }
    }
  }

  // ----- whole runs

  /** A call to the heap; for an allocation, with the frames pmm would hand out. */
  datatype Call = Malloc(size: nat, supply: seq<nat>) | Free(ptr: nat)

  function After(h: Heap, c: Call): Heap {
    match c
    case Malloc(size, supply) => KMalloc(h, size, supply).0
    case Free(ptr) => KFree(h, ptr)
  }

  ghost predicate Allowed(h: Heap, c: Call) {
    c.Malloc? ==> c.size < TWO_64 && FreshSupply(h, c.supply)
  }

  ghost predicate Clean(h: Heap, c: Call) {
    c.Malloc? && c.size > 0 ==> CleanGrowth(h, AlignUp(c.size), c.supply, ATTEMPTS)
  }

  /** hs is the history of the heap, from the empty one. */
  ghost predicate IsRun(hs: seq<Heap>, cs: seq<Call>) {
    && |hs| == |cs| + 1 && hs[0] == Heap([], {})
    && forall i {:trigger StepsTo(hs, cs, i)} | 0 <= i < |cs| :: StepsTo(hs, cs, i)
  }

  ghost predicate StepsTo(hs: seq<Heap>, cs: seq<Call>, i: nat)
    requires i < |cs| && |hs| == |cs| + 1
  {
    Allowed(hs[i], cs[i]) && hs[i + 1] == After(hs[i], cs[i])
  }

  ghost predicate Healthy(h: Heap) {
    Sound(h) && Aligned(h.blocks)
  }

  /** After any calls at all the blocks tile the frames taken and every byte is accounted for. */
  lemma {:induction false} RunHealthy(hs: seq<Heap>, cs: seq<Call>, i: nat)
    requires IsRun(hs, cs) && i <= |cs|
    ensures Healthy(hs[i])
    ensures InUse(hs[i].blocks) + Available(hs[i].blocks) + HEADER * |hs[i].blocks| == FRAME_SIZE * |hs[i].frames|
    decreases i
  {
    if i == 0 {
      var bs := hs[0].blocks;
      assert Ordered(bs) by { forall k ensures OrderedAt(bs, k) {} }
      assert Aligned(bs) by { forall k ensures AlignedAt(bs, k) {} }
    } else {
      RunHealthy(hs, cs, i - 1);
      assert StepsTo(hs, cs, i - 1);
      StepHealthy(hs[i - 1], cs[i - 1]);
    }
    ByteAccount(hs[i].blocks);
  }

  lemma {:induction false} StepHealthy(h: Heap, c: Call)
    requires Healthy(h) && Allowed(h, c)
    ensures Healthy(After(h, c))
  {
    match c
    case Malloc(size, supply) =>
      if size > 0 {
        AlignedEnough(size);
        AllocateSound(h, AlignUp(size), supply, ATTEMPTS);
        AllocateAligned(h, AlignUp(size), supply, ATTEMPTS);
      }
    case Free(ptr) =>
      FreeExact(h, ptr);
      var i := LiveAt(h.blocks, ptr);
      if i < |h.blocks| { ReleasedAligned(h.blocks, i); }
  }

  /** Along a run whose growth is clean, a block handed out is intact until it is freed:
      the live blocks change only by what each call returns or frees. */
  lemma {:induction false} RunKeepsLive(hs: seq<Heap>, cs: seq<Call>, i: nat, j: nat, b: Block)
    requires IsRun(hs, cs) && i <= j <= |cs| && b in Live(hs[i].blocks)
    requires forall k | i <= k < j :: Clean(hs[k], cs[k]) && cs[k] != Free(b.addr + HEADER)
    ensures b in Live(hs[j].blocks)
    decreases j
  {
    if i < j {
      RunKeepsLive(hs, cs, i, j - 1, b);
      RunHealthy(hs, cs, j - 1);
      assert StepsTo(hs, cs, j - 1);
      var h, c := hs[j - 1], cs[j - 1];
      match c
      case Malloc(size, supply) =>
        if size > 0 { AllocateGrants(h, 0, AlignUp(size), supply, ATTEMPTS); }
      case Free(ptr) => FreeExact(h, ptr);
    }
  }

  /** After any calls whose growth is clean, no two adjacent blocks are both free. */
  lemma {:induction false} RunCoalesced(hs: seq<Heap>, cs: seq<Call>, j: nat)
    requires IsRun(hs, cs) && j <= |cs| && forall k | 0 <= k < j :: Clean(hs[k], cs[k])
    ensures Coalesced(hs[j].blocks)
    decreases j
  {
    if j > 0 {
      RunCoalesced(hs, cs, j - 1);
      RunHealthy(hs, cs, j - 1);
      assert StepsTo(hs, cs, j - 1);
      var h, c := hs[j - 1], cs[j - 1];
      match c
      case Malloc(size, supply) =>
        if size > 0 { AllocateCoalesced(h, AlignUp(size), supply, ATTEMPTS); }
      case Free(ptr) => FreeExact(h, ptr);
    } else {
      forall k ensures CoalescedAt(hs[0].blocks, k) {}
    }
  }

  // ----- the failing run

  /** When the scan fails, the frame comes, and the scan then finds block i. */
  lemma {:induction false} GrowThenFit(h: Heap, size: nat, f: nat, i: nat, n: nat)
    requires n >= 2 && FirstFit(h.blocks, size) == |h.blocks|
    requires FirstFit(Grown(h.blocks, f), size) == i < |Grown(h.blocks, f)|
    ensures Allocate(h, size, [f], n) == (Heap(Placed(Grown(h.blocks, f), i, size), h.frames + {f}),
            Grown(h.blocks, f)[i].addr + HEADER)
  {
    assert Allocate(h, size, [f], n) == Allocate(Grow(h, f), size, [], n - 1);
  }

  function AfterFirst(f: nat): Heap {
    Heap([Block((f + 1) * FRAME_SIZE, 64, false), Block((f + 1) * FRAME_SIZE + 96, 3968, true)], {f + 1})
  }

  function AfterSecond(f: nat): Heap {
    Heap([Block(f * FRAME_SIZE, 4160, false), Block((f + 1) * FRAME_SIZE + 96, 3968, true)], {f + 1, f})
  }

  lemma {:induction false} FirstRequest(f: nat, n: nat)
    requires n >= 2
    ensures Allocate(Heap([], {}), 64, [f + 1], n) == (AfterFirst(f), (f + 1) * FRAME_SIZE + HEADER)
  {
    assert Grown([], f + 1) == [FrameBlock(f + 1)];
    assert Placed([FrameBlock(f + 1)], 0, 64) == AfterFirst(f).blocks;
    GrowThenFit(Heap([], {}), 64, f + 1, 0, n);
    assert {} + {f + 1} == AfterFirst(f).frames;
  }

  lemma {:induction false} SecondRequest(f: nat, n: nat)
    requires n >= 2
    ensures Allocate(AfterFirst(f), 4128, [f], n) == (AfterSecond(f), f * FRAME_SIZE + HEADER)
    ensures !CleanGrowth(AfterFirst(f), 4128, [f], n)
  {
    var bs := AfterFirst(f).blocks;
    var joined := Block(f * FRAME_SIZE, 4160, true);
    assert Grown(bs, f) == [joined, bs[1]];
    assert Placed([joined, bs[1]], 0, 4128) == AfterSecond(f).blocks;
    GrowThenFit(AfterFirst(f), 4128, f, 0, n);
    assert AfterFirst(f).frames + {f} == AfterSecond(f).frames;
    assert bs[0] in bs;
  }

  lemma {:induction false} OneLive(b: Block, c: Block)
    requires !b.free && c.free
    ensures Live([b, c]) == {b}
  {
    assert [b, c][0] == b;
  }

  lemma {:induction false} RequestSizes(small: nat, large: nat)
    requires 48 < small <= 64 && 4112 < large <= 4128
    ensures AlignUp(small) == 64 && AlignUp(large) == 4128
  {
  }

  lemma {:induction false} TwoRequests(f: nat, small: nat, large: nat)
    requires 48 < small <= 64 && 4112 < large <= 4128
    ensures KMalloc(Heap([], {}), small, [f + 1]) == (AfterFirst(f), (f + 1) * FRAME_SIZE + HEADER)
    ensures KMalloc(AfterFirst(f), large, [f]) == (AfterSecond(f), f * FRAME_SIZE + HEADER)
    ensures !Clean(AfterFirst(f), Malloc(large, [f]))
  {
    RequestSizes(small, large);
    FirstRequest(f, ATTEMPTS);
    SecondRequest(f, ATTEMPTS);
  }

  /** Two requests, the second served from the frame below the first: whatever the frame, the
      second result covers all of the first block, which nobody freed. */
  lemma {:induction false} SwallowedBlock(f: nat, small: nat, large: nat)
    requires 48 < small <= 64 && 4112 < large <= 4128
    ensures IsRun([Heap([], {}), AfterFirst(f), AfterSecond(f)], [Malloc(small, [f + 1]), Malloc(large, [f])])
    ensures var first, second := Block((f + 1) * FRAME_SIZE, 64, false), Block(f * FRAME_SIZE, 4160, false);
            && KMalloc(Heap([], {}), small, [f + 1]).1 == first.addr + HEADER && Live(AfterFirst(f).blocks) == {first}
            && KMalloc(AfterFirst(f), large, [f]).1 == second.addr + HEADER && Live(AfterSecond(f).blocks) == {second}
            && forall a | InBlock(first, a) :: InBlock(second, a)
    ensures !Clean(AfterFirst(f), Malloc(large, [f]))
  {
    TwoRequests(f, small, large);
    var hs, cs := [Heap([], {}), AfterFirst(f), AfterSecond(f)], [Malloc(small, [f + 1]), Malloc(large, [f])];
    OneLive(hs[1].blocks[0], hs[1].blocks[1]);
    OneLive(hs[2].blocks[0], hs[2].blocks[1]);
    assert StepsTo(hs, cs, 0) && StepsTo(hs, cs, 1);
  }

  /** Two live blocks never share a byte, so no two allocations overlap. */
  lemma {:induction false} LiveApart(h: Heap, b: Block, c: Block, a: nat)
    requires Sound(h) && b in Live(h.blocks) && c in Live(h.blocks) && b != c
    ensures !(InBlock(b, a) && InBlock(c, a))
    ensures InBlock(b, a) ==> a / FRAME_SIZE in h.frames
  {
    var i :| 0 <= i < |h.blocks| && h.blocks[i] == b;
    var j :| 0 <= j < |h.blocks| && h.blocks[j] == c;
    if i < j { OrderedFar(h.blocks, i, j); } else { OrderedFar(h.blocks, j, i); }
    assert InBlock(b, a) ==> Covers(h.blocks, a);
  }
}

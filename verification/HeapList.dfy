/** The heap as kernel/heap.cpp keeps it: headers in memory, linked in address order. */
module HeapList {
  import opened HeapModel
  import opened HeapTheorems

  const MAGIC_ALLOCATED: nat := 0xC0FFEE11
  const MAGIC_FREED: nat := 0xDEADF4EE
  const MAX_GROW_ATTEMPTS: nat := 256

  datatype Header = Header(size: nat, free: bool, magic: nat, next: nat)

  function Magic(free: bool): nat {
    if free then MAGIC_FREED else MAGIC_ALLOCATED
  }

  /** The address of block i, null past the end. */
  function AddrAt(bs: seq<Block>, i: nat): nat {
    if i < |bs| then bs[i].addr else 0
  }

  function HeaderAt(bs: seq<Block>, i: nat): Header
    requires i < |bs|
  {
    Header(bs[i].size, bs[i].free, Magic(bs[i].free), AddrAt(bs, i + 1))
  }

  predicate LinkedAt(mem: map<nat, Header>, bs: seq<Block>, i: int) {
    0 <= i < |bs| ==> bs[i].addr > 0 && bs[i].addr in mem && mem[bs[i].addr] == HeaderAt(bs, i)
  }

  ghost predicate Linked(mem: map<nat, Header>, head: nat, bs: seq<Block>) {
    head == AddrAt(bs, 0) && Ordered(bs) && forall i {:trigger LinkedAt(mem, bs, i)} :: LinkedAt(mem, bs, i)
  }

  predicate KeptAt(mem: map<nat, Header>, mem': map<nat, Header>, bs: seq<Block>, i: int) {
    0 <= i < |bs| && bs[i].addr in mem ==> bs[i].addr in mem' && mem'[bs[i].addr] == mem[bs[i].addr]
  }

  /** Replacing bs[p..r] by `mid`: only the headers of `mid` need be right. */
  lemma {:induction false} Patch(mem: map<nat, Header>, mem': map<nat, Header>, bs: seq<Block>, p: nat, mid: seq<Block>,
                                 r: nat)
    requires Linked(mem, AddrAt(bs, 0), bs) && p <= r <= |bs| && mid != []
    requires Ordered(bs[..p] + mid + bs[r..])
    requires p > 0 ==> p < |bs| && mid[0].addr == bs[p].addr
    requires forall i {:trigger KeptAt(mem, mem', bs, i)} | i < p || r <= i :: KeptAt(mem, mem', bs, i)
    requires forall k | p <= k < p + |mid| :: LinkedAt(mem', bs[..p] + mid + bs[r..], k)
    ensures Linked(mem', AddrAt(bs[..p] + mid + bs[r..], 0), bs[..p] + mid + bs[r..])
  {
    var t := bs[..p] + mid + bs[r..];
    var n := |mid| - (r - p);
    forall k ensures LinkedAt(mem', t, k) {
      if 0 <= k < p {
        assert LinkedAt(mem, bs, k) && KeptAt(mem, mem', bs, k);
      } else if p + |mid| <= k < |t| {
        assert LinkedAt(mem, bs, k - n) && KeptAt(mem, mem', bs, k - n);
        assert t[k] == bs[k - n];
        assert AddrAt(t, k + 1) == AddrAt(bs, k - n + 1);
      }
    }
  }

  /** Writes at the addresses x and y leave the other headers alone. */
  lemma {:induction false} KeptOff(mem: map<nat, Header>, bs: seq<Block>, x: nat, hx: Header, y: nat, hy: Header,
                                   i: nat)
    requires i < |bs| && bs[i].addr != x && bs[i].addr != y
    ensures KeptAt(mem, mem[x := hx][y := hy], bs, i)
  {
  }

  lemma {:induction false} AddrsRise(bs: seq<Block>, i: nat, j: nat)
    requires Ordered(bs) && i < j < |bs|
    ensures bs[i].addr < bs[j].addr
  {
    OrderedFar(bs, i, j);
  }

  lemma {:induction false} PositionIs(bs: seq<Block>, a: nat, i: nat)
    requires i <= |bs| && (forall k | 0 <= k < i :: bs[k].addr < a) && (i < |bs| ==> bs[i].addr >= a)
    ensures Position(bs, a) == i
  {
    if i > 0 {
      assert forall k | 0 <= k < i - 1 :: bs[1..][k] == bs[k + 1];
      PositionIs(bs[1..], a, i - 1);
    }
  }

  predicate Swallows(bs: seq<Block>, i: nat, b: Block) {
    i < |bs| && Adjacent(b, bs[i])
  }

  function Swallowed(bs: seq<Block>, i: nat, b: Block): Block {
    if Swallows(bs, i, b) then Joined(b, bs[i]) else b
  }

  /** The index of the block that follows the inserted one. */
  function Follower(bs: seq<Block>, i: nat, b: Block): nat {
    if Swallows(bs, i, b) then i + 1 else i
  }

  /** The header insert_free_block gives the new block, and the one it gives the block before. */
  function NewHeader(bs: seq<Block>, i: nat, b: Block): Header {
    Header(Swallowed(bs, i, b).size, true, MAGIC_FREED, AddrAt(bs, Follower(bs, i, b)))
  }

  function PrevHeader(bs: seq<Block>, i: nat, b: Block): Header
    requires 0 < i <= |bs|
  {
    var prev := bs[i - 1];
    if Adjacent(prev, b) && prev.free then
      Header(Joined(prev, Swallowed(bs, i, b)).size, true, MAGIC_FREED, AddrAt(bs, Follower(bs, i, b)))
    else Header(prev.size, prev.free, Magic(prev.free), b.addr)
  }

  lemma {:induction false} InsertOrdered(bs: seq<Block>, i: nat, b: Block)
    requires i <= |bs| && Ordered(bs[..i] + [b] + bs[i..])
    ensures Ordered(InsertAt(bs, i, b))
  {
    var s := bs[..i] + [b] + bs[i..];
    InsertSteps(bs, i, b);
    SettleRoom(s, i, JoinsUp(s, i), JoinsDown(s, i));
  }

  lemma {:induction false} InsertFirst(mem: map<nat, Header>, bs: seq<Block>, b: Block)
    requires Linked(mem, AddrAt(bs, 0), bs) && b.free && b.addr > 0 && Ordered(bs[..0] + [b] + bs[0..])
    ensures Linked(mem[b.addr := NewHeader(bs, 0, b)], b.addr, InsertAt(bs, 0, b))
  {
    var mem', r := mem[b.addr := NewHeader(bs, 0, b)], Follower(bs, 0, b);
    forall k | r <= k ensures KeptAt(mem, mem', bs, k) {
      if k < |bs| { InsertApart(bs, 0, b, k); }
    }
    InsertOrdered(bs, 0, b);
    assert InsertAt(bs, 0, b) == bs[..0] + [Swallowed(bs, 0, b)] + bs[r..];
    Patch(mem, mem', bs, 0, [Swallowed(bs, 0, b)], r);
  }

  lemma {:induction false} InsertKept(mem: map<nat, Header>, bs: seq<Block>, i: nat, b: Block, h: Header, g: Header,
                                      k: int)
    requires Ordered(bs) && 0 < i <= |bs| && (k < i - 1 || i <= k) && Ordered(bs[..i] + [b] + bs[i..])
    ensures KeptAt(mem, mem[b.addr := h][bs[i - 1].addr := g], bs, k)
  {
    if 0 <= k < |bs| {
      InsertApart(bs, i, b, k);
      if k < i { AddrsRise(bs, k, i - 1); } else { AddrsRise(bs, i - 1, k); }
      KeptOff(mem, bs, b.addr, h, bs[i - 1].addr, g, k);
    }
  }

  lemma {:induction false} InsertAfter(mem: map<nat, Header>, bs: seq<Block>, i: nat, b: Block)
    requires Linked(mem, AddrAt(bs, 0), bs) && 0 < i <= |bs| && b.free && b.addr > 0
    requires Ordered(bs[..i] + [b] + bs[i..])
    ensures Linked(mem[b.addr := NewHeader(bs, i, b)][bs[i - 1].addr := PrevHeader(bs, i, b)],
                   AddrAt(bs, 0), InsertAt(bs, i, b))
  {
    var mem' := mem[b.addr := NewHeader(bs, i, b)][bs[i - 1].addr := PrevHeader(bs, i, b)];
    var prev, b', r := bs[i - 1], Swallowed(bs, i, b), Follower(bs, i, b);
    var t := InsertAt(bs, i, b);
    forall k | k < i - 1 || r <= k ensures KeptAt(mem, mem', bs, k) {
      InsertKept(mem, bs, i, b, NewHeader(bs, i, b), PrevHeader(bs, i, b), k);
    }
    InsertOrdered(bs, i, b);
    InsertApart(bs, i, b, i - 1);
    assert LinkedAt(mem, bs, i - 1);
    var mid := if Adjacent(prev, b) && prev.free then [Joined(prev, b')] else [prev, b'];
    assert t == bs[..i - 1] + mid + bs[r..];
    assert t[i - 1] == mid[0] && AddrAt(t, i - 1 + |mid|) == AddrAt(bs, r);
    assert |mid| == 2 ==> t[i] == b';
    Patch(mem, mem', bs, i - 1, mid, r);
  }

  lemma {:induction false} InsertApart(bs: seq<Block>, i: nat, b: Block, k: nat)
    requires i <= |bs| && k < |bs| && Ordered(bs[..i] + [b] + bs[i..])
    ensures bs[k].addr != b.addr
  {
    var s := bs[..i] + [b] + bs[i..];
    assert s[i] == b;
    if k < i {
      assert s[k] == bs[k];
      AddrsRise(s, k, i);
    } else {
      assert s[k + 1] == bs[k];
      AddrsRise(s, i, k + 1);
    }
  }

  // ----- kmalloc and kfree on the links

  /** The memory after the block at i was allocated, its tail split off if large enough. */
  function PlacedMem(mem: map<nat, Header>, bs: seq<Block>, i: nat, size: nat): map<nat, Header>
    requires i < |bs| && bs[i].size >= size
  {
    var b, next := bs[i], AddrAt(bs, i + 1);
    if b.size - size >= HEADER + MIN_SPLIT_REMAINDER then
      var tail := b.addr + HEADER + size;
      mem[tail := Header(b.size - size - HEADER, true, MAGIC_FREED, next)]
         [b.addr := Header(size, false, MAGIC_ALLOCATED, tail)]
    else mem[b.addr := Header(b.size, false, MAGIC_ALLOCATED, next)]
  }

  lemma {:induction false} PlacedLinked(mem: map<nat, Header>, bs: seq<Block>, i: nat, size: nat)
    requires Linked(mem, AddrAt(bs, 0), bs) && i < |bs| && bs[i].size >= size
    ensures Linked(PlacedMem(mem, bs, i, size), AddrAt(bs, 0), Placed(bs, i, size))
  {
    var mem', t, b := PlacedMem(mem, bs, i, size), Placed(bs, i, size), bs[i];
    PlacedRoom(bs, i, size);
    forall k | k < i || i + 1 <= k ensures KeptAt(mem, mem', bs, k) {
      if 0 <= k < i { OrderedFar(bs, k, i); }
      if i < k < |bs| { OrderedFar(bs, i, k); }
    }
    assert LinkedAt(mem, bs, i);
    var mid := t[i..i + 1 + |t| - |bs|];
    assert t == bs[..i] + mid + bs[i + 1..];
    assert AddrAt(t, i + |mid|) == AddrAt(bs, i + 1);
    Patch(mem, mem', bs, i, mid, i + 1);
  }

  predicate JoinsNext(bs: seq<Block>, i: nat)
    requires i < |bs|
  {
    i + 1 < |bs| && bs[i + 1].free && Adjacent(bs[i], bs[i + 1])
  }

  predicate JoinsPrev(bs: seq<Block>, i: nat)
    requires i < |bs|
  {
    i > 0 && bs[i - 1].free && Adjacent(bs[i - 1], bs[i])
  }

  function FreedHeader(bs: seq<Block>, i: nat): Header
    requires i < |bs|
  {
    if JoinsNext(bs, i) then Header(Joined(bs[i], bs[i + 1]).size, true, MAGIC_FREED, AddrAt(bs, i + 2))
    else Header(bs[i].size, true, MAGIC_FREED, AddrAt(bs, i + 1))
  }

  function ReleasedMem(mem: map<nat, Header>, bs: seq<Block>, i: nat): map<nat, Header>
    requires i < |bs|
  {
    var h := FreedHeader(bs, i);
    var mem' := mem[bs[i].addr := h];
    if JoinsPrev(bs, i) then
      mem'[bs[i - 1].addr := Header(bs[i - 1].size + HEADER + h.size, true, MAGIC_FREED, h.next)]
    else mem'
  }

  lemma {:induction false} ReleasedKept(mem: map<nat, Header>, bs: seq<Block>, i: nat, k: nat)
    requires Ordered(bs) && i < |bs| && k < |bs| && k != i && (JoinsPrev(bs, i) ==> k != i - 1)
    ensures KeptAt(mem, ReleasedMem(mem, bs, i), bs, k)
  {
    if k < i { AddrsRise(bs, k, i); } else { AddrsRise(bs, i, k); }
    if JoinsPrev(bs, i) {
      if k < i - 1 { AddrsRise(bs, k, i - 1); } else { AddrsRise(bs, i - 1, k); }
    }
  }

  lemma {:induction false} ReleasedLinked(mem: map<nat, Header>, bs: seq<Block>, i: nat)
    requires Linked(mem, AddrAt(bs, 0), bs) && i < |bs| && !bs[i].free
    ensures Linked(ReleasedMem(mem, bs, i), AddrAt(bs, 0), Released(bs, i))
  {
    var mem', t := ReleasedMem(mem, bs, i), Released(bs, i);
    var p := if JoinsPrev(bs, i) then i - 1 else i;
    var r := if JoinsNext(bs, i) then i + 2 else i + 1;
    ReleasedSound(bs, i);
    forall k | k < p || r <= k ensures KeptAt(mem, mem', bs, k) {
      if 0 <= k < |bs| { ReleasedKept(mem, bs, i, k); }
    }
    ReleasedShape(mem, bs, i, p, r);
    Patch(mem, mem', bs, p, [t[p]], r);
  }

  /** The freed block and what it joins become one header, between what was around them. */
  lemma {:induction false} ReleasedShape(mem: map<nat, Header>, bs: seq<Block>, i: nat, p: nat, r: nat)
    requires Linked(mem, AddrAt(bs, 0), bs) && i < |bs| && !bs[i].free
    requires p == (if JoinsPrev(bs, i) then i - 1 else i) && r == if JoinsNext(bs, i) then i + 2 else i + 1
    ensures var t := Released(bs, i);
            && p < |t| && r <= |bs| && t == bs[..p] + [t[p]] + bs[r..] && t[p].addr == bs[p].addr
            && LinkedAt(ReleasedMem(mem, bs, i), t, p)
  {
    var t := Released(bs, i);
    assert LinkedAt(mem, bs, p);
    assert t == bs[..p] + [t[p]] + bs[r..];
    assert AddrAt(t, p + 1) == AddrAt(bs, r);
  }
}

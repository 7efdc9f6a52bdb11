/** paging::count_wx_pages of kernel/paging.cpp: the audit process::run makes of a new space. */
module WxPages {
  import opened PageModel
  import opened Paging

  predicate IsWx(e: Entry) {
    e.writable && !e.nx
  }

  /** The entry at `p` maps a page, or a large page, writable and executable. */
  predicate WxLeaf(mem: Memory, root: nat, p: Path) {
    p.Child? && EntryAt(mem, root, p).present && !Points(EntryAt(mem, root, p), Depth(p)) && IsWx(EntryAt(mem, root, p))
  }

  /** The set holds exactly the writable and executable leaves at or below `q`. */
  ghost predicate LeavesIn(mem: Memory, root: nat, q: Path, leaves: set<Path>) {
    forall p {:trigger p in leaves} {:trigger WxLeaf(mem, root, p)} ::
        p in leaves <==> WxLeaf(mem, root, p) && Within(p, q)
  }

  predicate UnderSome(p: Path, q: Path, lo: nat, hi: nat) {
    exists i: nat | lo <= i < hi :: Within(p, Child(q, i))
  }

  /** The same for entries lo to hi - 1 of the table at `q`. */
  ghost predicate LeavesFrom(mem: Memory, root: nat, q: Path, lo: nat, hi: nat, leaves: set<Path>) {
    forall p {:trigger p in leaves} {:trigger WxLeaf(mem, root, p)} ::
      p in leaves <==> WxLeaf(mem, root, p) && UnderSome(p, q, lo, hi)
  }

  /** One more entry of a table: its leaves are new, so the counts add up. */
  lemma {:induction false} AddEntry(mem: Memory, root: nat, q: Path, lo: nat, i: nat, some: set<Path>, more: set<Path>)
    requires LeavesFrom(mem, root, q, lo, i, some) && LeavesIn(mem, root, Child(q, i), more) && lo <= i
    ensures LeavesFrom(mem, root, q, lo, i + 1, some + more) && |some + more| == |some| + |more|
  {
    forall p ensures UnderSome(p, q, lo, i + 1) <==> UnderSome(p, q, lo, i) || Within(p, Child(q, i)) {
      UnderNext(p, q, lo, i);
    }
    forall p | p in more ensures p !in some { UnderOne(p, q, lo, i); }
    assert some !! more;
  }

  lemma {:induction false} UnderNext(p: Path, q: Path, lo: nat, i: nat)
    requires lo <= i
    ensures UnderSome(p, q, lo, i + 1) <==> UnderSome(p, q, lo, i) || Within(p, Child(q, i))
  {
  }

  lemma {:induction false} UnderOne(p: Path, q: Path, lo: nat, i: nat)
    requires Within(p, Child(q, i))
    ensures !UnderSome(p, q, lo, i)
  {
    if j: nat :| lo <= j < i && Within(p, Child(q, j)) { SameAncestor(p, Child(q, i), Child(q, j)); }
  }

  /** No table hangs below an entry that does not point to one. */
  lemma {:induction false} NothingBelow(mem: Memory, root: nat, q: Path, p: Path)
    requires TableAt(mem, root, q) < 0 && Within(p, q) && p != q
    ensures EntryAt(mem, root, p) == ZERO
  {
    if p.up != q { NothingBelow(mem, root, q, p.up); }
  }

  lemma {:induction false} LeafOnly(mem: Memory, root: nat, q: Path)
    requires q.Child? && TableAt(mem, root, q) < 0
    ensures LeavesIn(mem, root, q, if WxLeaf(mem, root, q) then {q} else {})
  {
    forall p | Within(p, q) && p != q ensures !WxLeaf(mem, root, p) { NothingBelow(mem, root, q, p); }
  }

  lemma {:induction false} BelowTable(mem: Memory, root: nat, q: Path, leaves: set<Path>)
    requires q.Child? && TableAt(mem, root, q) >= 0 && LeavesFrom(mem, root, q, 0, ENTRIES, leaves)
    ensures LeavesIn(mem, root, q, leaves)
  {
    forall p | WxLeaf(mem, root, p) ensures Within(p, q) <==> UnderSome(p, q, 0, ENTRIES) {
      if Within(p, q) {
        var i := WithinChild(p, q);
        if i >= ENTRIES { OutOfTable(mem, root, Child(q, i), p); }
      }
      if i: nat :| i < ENTRIES && Within(p, Child(q, i)) { WithinTransitive(p, Child(q, i), q); }
    }
  }

  lemma {:induction false} OutOfTable(mem: Memory, root: nat, q: Path, p: Path)
    requires q.Child? && q.index >= ENTRIES && Within(p, q)
    ensures EntryAt(mem, root, p) == ZERO
  {
    if p != q { NothingBelow(mem, root, q, p); }
  }

  // ----- the four nested loops

  method CountPages(s: AddressSpaces, pt: nat, ghost root: nat, ghost q: Path) returns (n: nat, ghost leaves: set<Path>)
    requires Tree(s.mem, root) && Depth(q) == 3 && TableAt(s.mem, root, q) == pt
    ensures n == |leaves| && LeavesFrom(s.mem, root, q, 0, ENTRIES, leaves)
  {
    assert TableOk(s.mem, root, q);
    n, leaves := 0, {};
    for i := 0 to ENTRIES
      invariant n == |leaves| && LeavesFrom(s.mem, root, q, 0, i, leaves)
    {
      ghost var r := Child(q, i);
      LeafOnly(s.mem, root, r);
      AddEntry(s.mem, root, q, 0, i, leaves, if WxLeaf(s.mem, root, r) then {r} else {});
      leaves := leaves + if WxLeaf(s.mem, root, r) then {r} else {};
      if !s.mem[pt][i].present { continue; }
      if s.mem[pt][i].writable && !s.mem[pt][i].nx { n := n + 1; }
    }
  }

  method CountTables(s: AddressSpaces, pd: nat, ghost root: nat, ghost q: Path)
    returns (n: nat, ghost leaves: set<Path>)
    requires Tree(s.mem, root) && Depth(q) == 2 && TableAt(s.mem, root, q) == pd
    ensures n == |leaves| && LeavesFrom(s.mem, root, q, 0, ENTRIES, leaves)
  {
    assert TableOk(s.mem, root, q);
    n, leaves := 0, {};
    for i := 0 to ENTRIES
      invariant n == |leaves| && LeavesFrom(s.mem, root, q, 0, i, leaves)
    {
      var e := s.mem[pd][i];
      var more, below := CountTable(s, e, root, Child(q, i));
      AddEntry(s.mem, root, q, 0, i, leaves, below);
      n, leaves := n + more, leaves + below;
    }
  }

  /** One entry of a page directory: nothing, a large page, or a table. */
  method CountTable(s: AddressSpaces, e: Entry, ghost root: nat, ghost r: Path)
    returns (n: nat, ghost leaves: set<Path>)
    requires Tree(s.mem, root) && r.Child? && Depth(r) == 3
             && EntryAt(s.mem, root, r) == (if e.present then e else ZERO)
    ensures n == |leaves| && LeavesIn(s.mem, root, r, leaves)
  {
    if !e.present || e.huge {
      LeafOnly(s.mem, root, r);
      leaves := if WxLeaf(s.mem, root, r) then {r} else {};
      return if e.present && e.writable && !e.nx then 1 else 0, leaves;
    }
    n, leaves := CountPages(s, e.frame, root, r);
    BelowTable(s.mem, root, r, leaves);
  }

  method CountDirectories(s: AddressSpaces, pdpt: nat, from: nat, ghost root: nat, ghost q: Path)
    returns (n: nat, ghost leaves: set<Path>)
    requires Tree(s.mem, root) && Depth(q) == 1 && TableAt(s.mem, root, q) == pdpt && from <= ENTRIES
    ensures n == |leaves| && LeavesFrom(s.mem, root, q, from, ENTRIES, leaves)
  {
    assert TableOk(s.mem, root, q);
    n, leaves := 0, {};
    for i := from to ENTRIES
      invariant n == |leaves| && LeavesFrom(s.mem, root, q, from, i, leaves)
    {
      var e := s.mem[pdpt][i];
      var more, below := CountDirectory(s, e, root, Child(q, i));
      AddEntry(s.mem, root, q, from, i, leaves, below);
      n, leaves := n + more, leaves + below;
    }
  }

  /** One entry of a page-directory-pointer table: nothing, a large page, or a directory. */
  method CountDirectory(s: AddressSpaces, e: Entry, ghost root: nat, ghost r: Path)
    returns (n: nat, ghost leaves: set<Path>)
    requires Tree(s.mem, root) && r.Child? && Depth(r) == 2
             && EntryAt(s.mem, root, r) == (if e.present then e else ZERO)
    ensures n == |leaves| && LeavesIn(s.mem, root, r, leaves)
  {
    if !e.present || e.huge {
      LeafOnly(s.mem, root, r);
      leaves := if WxLeaf(s.mem, root, r) then {r} else {};
      return if e.present && e.writable && !e.nx then 1 else 0, leaves;
    }
    n, leaves := CountTables(s, e.frame, root, r);
    BelowTable(s.mem, root, r, leaves);
  }

  /** The leaves outside the shared kernel map, in the first `a` slots of the PML4. */
  ghost predicate PrivateLeaves(mem: Memory, root: nat, a: nat, leaves: set<Path>) {
    forall p {:trigger p in leaves} {:trigger WxLeaf(mem, root, p)} ::
      p in leaves <==> WxLeaf(mem, root, p) && Private(p) && UnderSome(p, Root, 0, a)
  }

  /** The number of pages and large pages outside the shared kernel map that can be written and
      executed; zero exactly if no address there can be both. */
  method CountWxPages(s: AddressSpaces, root: nat) returns (n: nat, ghost leaves: set<Path>)
    requires Tree(s.mem, root) && RightsOk(s.mem, root)
    ensures n == |leaves| && forall p :: p in leaves <==> WxLeaf(s.mem, root, p) && Private(p)
    ensures n == 0 <==> NoWxPage(s.mem, root)
  {
    assert TableOk(s.mem, root, Root);
    n, leaves := 0, {};
    for a := 0 to ENTRIES
      invariant n == |leaves| && PrivateLeaves(s.mem, root, a, leaves)
    {
      ghost var q := Child(Root, a);
      assert Depth(q) == 1;
      if !s.mem[root][a].present {
        AbsentSlot(s.mem, root, a, leaves);
        continue;
      }
      var more, below := CountDirectories(s, s.mem[root][a].frame, if a == 0 then 1 else 0, root, q);
      AddSlot(s.mem, root, a, leaves, below);
      n, leaves := n + more, leaves + below;
    }
    AllSlots(s.mem, root, leaves);
    LeavesToPages(s.mem, root, leaves);
  }

  lemma {:induction false} AbsentSlot(mem: Memory, root: nat, a: nat, leaves: set<Path>)
    requires EntryAt(mem, root, Child(Root, a)) == ZERO && PrivateLeaves(mem, root, a, leaves)
    ensures PrivateLeaves(mem, root, a + 1, leaves)
  {
    var q := Child(Root, a);
    LeafOnly(mem, root, q);
    forall p | WxLeaf(mem, root, p) ensures UnderSome(p, Root, 0, a + 1) <==> UnderSome(p, Root, 0, a) {
      assert !Within(p, q);
    }
  }

  /** One more slot: without the first gigabyte of slot 0, which is the kernel's. */
  lemma {:induction false} AddSlot(mem: Memory, root: nat, a: nat, some: set<Path>, more: set<Path>)
    requires PrivateLeaves(mem, root, a, some) && a < ENTRIES && EntryAt(mem, root, Child(Root, a)).present
    requires LeavesFrom(mem, root, Child(Root, a), if a == 0 then 1 else 0, ENTRIES, more)
    ensures PrivateLeaves(mem, root, a + 1, some + more) && |some + more| == |some| + |more|
  {
    var q := Child(Root, a);
    assert Depth(q) == 1;
    forall p | WxLeaf(mem, root, p)
      ensures Private(p) && Within(p, q) <==> UnderSome(p, q, if a == 0 then 1 else 0, ENTRIES)
    {
      InSlot(mem, root, a, p);
    }
    forall p ensures UnderSome(p, Root, 0, a + 1) <==> UnderSome(p, Root, 0, a) || Within(p, q) {
    }
    forall p | p in more ensures p !in some {
      if j: nat :| j < a && Within(p, Child(Root, j)) {
        assert Depth(Child(Root, j)) == 1;
        SameAncestor(p, q, Child(Root, j));
      }
    }
    assert some !! more;
  }

  lemma {:induction false} InSlot(mem: Memory, root: nat, a: nat, p: Path)
    requires WxLeaf(mem, root, p) && Depth(Child(Root, a)) == 1
    ensures Private(p) && Within(p, Child(Root, a)) <==> UnderSome(p, Child(Root, a), if a == 0 then 1 else 0, ENTRIES)
  {
    var q := Child(Root, a);
    if Within(p, q) {
      var i := WithinChild(p, q);
      if i >= ENTRIES { OutOfTable(mem, root, Child(q, i), p); }
    }
    if i: nat :| (if a == 0 then 1 else 0) <= i < ENTRIES && Within(p, Child(q, i)) {
      WithinTransitive(p, Child(q, i), q);
      NotKernel(p, a, i);
    }
  }

  lemma {:induction false} AllSlots(mem: Memory, root: nat, leaves: set<Path>)
    requires PrivateLeaves(mem, root, ENTRIES, leaves)
    ensures forall p :: p in leaves <==> WxLeaf(mem, root, p) && Private(p)
  {
    forall p | WxLeaf(mem, root, p) && Private(p) ensures UnderSome(p, Root, 0, ENTRIES) {
      RootAbove(p);
      var a := WithinChild(p, Root);
      if a >= ENTRIES { OutOfTable(mem, root, Child(Root, a), p); }
    }
  }

  // ----- leaves and translations

  /** No page outside the shared kernel map translates to writable and executable memory. */
  ghost predicate NoWxPage(mem: Memory, root: nat) {
    forall p {:trigger WxWalk(mem, root, p)} | Private(p) && Depth(p) == 4 :: !WxWalk(mem, root, p)
  }

  predicate WxWalk(mem: Memory, root: nat, p: Path) {
    var w := WalkTo(mem, root, p);
    w.Page? && w.writable && w.executable
  }

  lemma {:induction false} LeavesToPages(mem: Memory, root: nat, leaves: set<Path>)
    requires RightsOk(mem, root) && forall p :: p in leaves <==> WxLeaf(mem, root, p) && Private(p)
    ensures leaves == {} <==> NoWxPage(mem, root)
  {
    forall p | Private(p) && Depth(p) == 4 && WxWalk(mem, root, p) ensures leaves != {} {
      var at := WalkTo(mem, root, p).at;
      WalkEnds(mem, root, p);
      WalkRights(mem, root, p);
      if Within(at, KERNEL) { WithinTransitive(p, at, KERNEL); }
      assert at in leaves;
    }
    forall p | p in leaves ensures !NoWxPage(mem, root) {
      LeafDepth(mem, root, p);
      var r := Deepen(p);
      StaysPrivate(p, r);
      LeafWalk(mem, root, p, r);
    }
  }

  /** A walk that ends in a page ends in a leaf on its path. */
  lemma {:induction false} WalkEnds(mem: Memory, root: nat, p: Path)
    requires WalkTo(mem, root, p).Page?
    ensures Within(p, WalkTo(mem, root, p).at) && WalkTo(mem, root, p).at.Child?
  {
    if !WalkTo(mem, root, p.up).Inner? { WalkEnds(mem, root, p.up); }
  }

  lemma {:induction false} RootAbove(p: Path)
    ensures Within(p, Root)
  {
    if p.Child? { RootAbove(p.up); }
  }

  /** A leaf is no entry of the PML4, and its table is at most of depth 3. */
  lemma {:induction false} LeafDepth(mem: Memory, root: nat, p: Path)
    requires WxLeaf(mem, root, p)
    ensures 2 <= Depth(p) <= 4
  {
    assert p.up == Root ==> Depth(p) == 1;
    if p.up.Child? { LeafUp(mem, root, p.up); }
  }

  lemma {:induction false} StaysPrivate(p: Path, r: Path)
    requires Private(p) && Depth(p) >= 2 && Within(r, p)
    ensures Private(r)
  {
    assert Depth(Child(Root, 0)) == 1;
    assert Depth(KERNEL) == 2;
    WithinDepth(r, p);
    if Within(r, KERNEL) { Between(r, p, KERNEL); }
  }

  /** Of two ancestors the deeper lies below the other. */
  lemma {:induction false} Between(r: Path, p: Path, q: Path)
    requires Within(r, p) && Within(r, q) && Depth(p) >= Depth(q)
    ensures Within(p, q)
  {
    if r == q && r != p {
      WithinDepth(r.up, p);
    } else if r != p {
      Between(r.up, p, q);
    }
  }

  lemma {:induction false} LeafUp(mem: Memory, root: nat, p: Path)
    requires TableAt(mem, root, p) >= 0
    ensures Depth(p) <= 3
  {
  }

  /** A page inside the region an entry covers. */
  function Deepen(p: Path): (r: Path)
    requires Depth(p) <= 4
    ensures Within(r, p) && Depth(r) == 4
    decreases 4 - Depth(p)
  {
    if Depth(p) == 4 then p else
      var r := Deepen(Child(p, 0));
      WithinTransitive(r, Child(p, 0), p);
      r
  }

  lemma {:induction false} NotKernel(r: Path, a: nat, i: nat)
    requires Within(r, Child(Child(Root, a), i)) && (a > 0 || i > 0)
    ensures r.Child? && !Within(r, KERNEL)
  {
    var q := Child(Child(Root, a), i);
    assert Depth(Child(Root, a)) == 1 && Depth(Child(Root, 0)) == 1;
    assert Depth(q) == 2 && Depth(KERNEL) == 2;
    if Within(r, KERNEL) { SameAncestor(r, q, KERNEL); }
    WithinDepth(r, q);
  }

  lemma {:induction false} SameAncestor(r: Path, p: Path, q: Path)
    requires Within(r, p) && Within(r, q) && Depth(p) == Depth(q)
    ensures p == q
  {
    if r == p {
      if r != q { WithinDepth(r.up, q); }
    } else if r == q {
      WithinDepth(r.up, p);
    } else {
      SameAncestor(r.up, p, q);
    }
  }

  /** Below a leaf every walk ends in it, with its rights. */
  lemma {:induction false} LeafWalk(mem: Memory, root: nat, p: Path, r: Path)
    requires RightsOk(mem, root) && WxLeaf(mem, root, p) && Within(r, p)
    ensures WxWalk(mem, root, r)
  {
    if r == p {
      WalkReaches(mem, root, p.up);
      WalkRights(mem, root, p.up);
    } else {
      LeafWalk(mem, root, p, r.up);
    }
  }
}

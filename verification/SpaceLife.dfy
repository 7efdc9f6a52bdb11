/** The life of an address space: created, filled with fresh frames, destroyed. This is what
    process::run does on its way to a new process and on every failure path. */
module SpaceLife {
  import opened Frames
  import opened PageModel
  import opened Paging

  /** Every frame in use was so before the space existed, or the space answers for it; and
      not both. */
  ghost predicate Balanced(mem: Memory, root: nat, base: set<nat>, used: set<nat>) {
    forall f {:trigger Owns(mem, root, f)} {:trigger f in used} ::
      (f in used <==> f in base || Owns(mem, root, f)) && !(f in base && Owns(mem, root, f))
  }

  predicate OwnedPage(mem: Memory, root: nat, p: Path) {
    Private(p) && Depth(p) == 4 && EntryAt(mem, root, p).owned
  }

  predicate PageApart(mem: Memory, root: nat, p: Path, q: Path) {
    OwnedPage(mem, root, p) ==>
      && TableAt(mem, root, q) != EntryAt(mem, root, p).frame
      && (OwnedPage(mem, root, q) && EntryAt(mem, root, q).frame == EntryAt(mem, root, p).frame ==> p == q)
  }

  /** No frame of an owned page is a page table, or the frame of another owned page. */
  ghost predicate PagesApart(mem: Memory, root: nat) {
    forall p, q {:trigger PageApart(mem, root, p, q)} :: PageApart(mem, root, p, q)
  }

  ghost predicate Alive(s: AddressSpaces, root: nat, base: set<nat>)
    reads s, s.pmm, s.pmm.bitmap
  {
    && s.Valid() && s.Space(root) && 0 in base
    && Balanced(s.mem, root, base, s.pmm.Used()) && PagesApart(s.mem, root)
  }

  /** The frame that mapping over an owned page leaves without an owner. */
  function Lost(mem: Memory, root: nat, p: Path, ok: bool): set<nat> {
    if ok && OwnedPage(mem, root, p) then {EntryAt(mem, root, p).frame} else {}
  }

  /** Mapping a frame takes at most three more, for tables; that it fails means a misaligned address, a
      large page in the way, or that no frame was free before it was given back. */
  predicate Spare(mem: Memory, root: nat, virtAddr: nat, before: nat, after: nat, ok: bool) {
    && before <= after + 3
    && (!ok ==> virtAddr % FRAME_SIZE != 0 || !NotLarge(mem, root, PathOf(virtAddr).up) || after <= 1)
  }

  /** A frame just allocated is mapped as an owned page, or given back. `used` are the frames
      in use before it was allocated. The frame of an owned page that was there before stays
      in use with nobody to answer for it, just as those in use before the space existed. */
  method MapOwned(s: AddressSpaces, root: nat, virtAddr: nat, f: nat, flags: Flags, ghost base: set<nat>,
                  ghost used: set<nat>)
    returns (ok: bool)
    requires s.Valid() && s.Space(root) && 0 in base && Balanced(s.mem, root, base, used) && PagesApart(s.mem, root)
    requires f != 0 && f !in used && s.pmm.Used() == used + {f} && f < MAX_FRAMES
    requires OutsideTree(s.mem, root, f)
    requires Private(PathOf(virtAddr)) && flags.owned
    modifies s`mem, s.pmm, s.pmm.bitmap
    ensures Alive(s, root, base + Lost(old(s.mem), root, PathOf(virtAddr), ok))
    ensures Mapped(old(s.mem), s.mem, root, PathOf(virtAddr), f, flags, ok)
    ensures Isolated(old(s.mem), s.mem, used, root)
    ensures Spare(old(s.mem), root, virtAddr, old(s.pmm.freeCount), s.pmm.freeCount, ok)
  {
    FrameNumber(f);
    ghost var p, m0 := PathOf(virtAddr), s.mem;
    ok := s.MapPageIn(root, virtAddr, f * FRAME_SIZE, flags);
    ApartAfter(m0, s.mem, root, p, f, flags, ok, base, used);
    BalancedAfter(m0, s.mem, root, p, f, flags, ok, base, used, s.pmm.Used());
    ghost var free := s.pmm.freeCount + if ok then 0 else 1;
    assert Spare(m0, root, virtAddr, old(s.pmm.freeCount), free, ok);
    if !ok { s.FreeFrame(f); }
    assert s.pmm.freeCount == free;
  }

  lemma {:induction false} ApartAfter(mem: Memory, mem': Memory, root: nat, p: Path, f: nat, flags: Flags, ok: bool,
                                      base: set<nat>, used: set<nat>)
    requires Private(p) && Depth(p) == 4 && f !in used && OutsideTree(mem, root, f)
    requires Balanced(mem, root, base, used) && PagesApart(mem, root)
    requires Mapped(mem, mem', root, p, f, flags, ok) && Isolated(mem, mem', used + {f}, root)
    ensures PagesApart(mem', root) && Isolated(mem, mem', used, root) && OutsideTree(mem', root, f)
  {
    forall q ensures TableAt(mem', root, q) != f { NotMadeTable(mem, mem', used + {f}, root, p, f, q); }
    KeepApart(mem, mem', used + {f}, root, p, f);
  }

  /** Mapping over an owned page leaves its old frame without an owner. */
  lemma {:induction false} OvermappedFrame(mem: Memory, mem': Memory, root: nat, p: Path, f: nat, flags: Flags,
                                           used: set<nat>)
    requires OwnedPage(mem, root, p) && PagesApart(mem, root)
    requires Mapped(mem, mem', root, p, f, flags, true) && Isolated(mem, mem', used, root)
    requires EntryAt(mem, root, p).frame in used && f != EntryAt(mem, root, p).frame
    ensures !Owns(mem', root, EntryAt(mem, root, p).frame)
  {
    var f0 := EntryAt(mem, root, p).frame;
    forall q ensures TableAt(mem, root, q) != f0 { assert PageApart(mem, root, p, q); }
    forall q ensures !OwnsAt(mem', root, f0, q) && TableAt(mem', root, q) != f0 {
      NotMadeTable(mem, mem', used, root, p, f0, q);
      if Depth(q) == 4 && q != p {
        SameDepth(p, q);
        assert AgreeAt(mem, mem', root, q) && PageApart(mem, root, p, q);
      }
    }
    assert TableAt(mem', root, Root) == root;
  }

  lemma {:induction false} BalancedAfter(mem: Memory, mem': Memory, root: nat, p: Path, f: nat, flags: Flags, ok: bool,
                                        base: set<nat>, used: set<nat>, used': set<nat>)
    requires Private(p) && Depth(p) == 4 && flags.owned && f !in used && used + {f} <= used'
    requires Balanced(mem, root, base, used) && PagesApart(mem, root)
    requires Mapped(mem, mem', root, p, f, flags, ok) && Isolated(mem, mem', used + {f}, root)
    requires Grown(mem, mem', root, p, f, flags, ok, used' - (used + {f}))
    ensures Balanced(mem', root, base + Lost(mem, root, p, ok), if ok then used' else used' - {f})
  {
    var base', used'' := base + Lost(mem, root, p, ok), if ok then used' else used' - {f};
    forall g ensures (g in used'' <==> g in base' || Owns(mem', root, g)) && !(g in base' && Owns(mem', root, g)) {
      if ok && OwnsAt(mem, root, g, p) {
        assert Owns(mem, root, g);
        OvermappedFrame(mem, mem', root, p, f, flags, used + {f});
      } else {
        assert g in used <==> g in base || Owns(mem, root, g);
      }
    }
  }

  /** A frame that is in use, but was no table of the space, is none after a mapping. */
  lemma {:induction false} NotMadeTable(mem: Memory, mem': Memory, used: set<nat>, root: nat, p: Path, f: nat, q: Path)
    requires Isolated(mem, mem', used, root) && Private(p) && f in used && OutsideTree(mem, root, f)
    requires forall r | !Within(p, r) :: AgreeAt(mem, mem', root, r)
    ensures TableAt(mem', root, q) != f
  {
    if Within(q, KERNEL) {
      if Within(p, q) { WithinTransitive(p, q, KERNEL); }
      assert AgreeAt(mem, mem', root, q) && TableAt(mem, root, q) != f;
    } else {
      assert TableAt(mem', root, q) == f ==> PrivateTable(mem', root, f);
    }
  }

  lemma {:induction false} KeepApart(mem: Memory, mem': Memory, used: set<nat>, root: nat, p: Path, f: nat)
    requires Isolated(mem, mem', used, root) && Private(p) && Depth(p) == 4 && PagesApart(mem, root)
    requires forall r | !Within(p, r) :: AgreeAt(mem, mem', root, r)
    requires forall g | Owns(mem, root, g) :: g in used
    requires AgreeAt(mem, mem', root, p) || (EntryAt(mem', root, p).frame == f && !Owns(mem, root, f))
    requires OutsideTree(mem', root, f)
    ensures PagesApart(mem', root)
  {
    forall r, q ensures PageApart(mem', root, r, q) {
      if OwnedPage(mem', root, r) {
        StaysApart(mem, mem', used, root, p, f, r);
        assert TableAt(mem', root, q) != EntryAt(mem', root, r).frame;
        if OwnedPage(mem', root, q) {
          StaysApart(mem, mem', used, root, p, f, q);
          assert PageApart(mem, root, r, q);
        }
      }
    }
  }

  /** An owned page after the mapping was one before, with the same frame, or is the new one. */
  lemma {:induction false} StaysApart(mem: Memory, mem': Memory, used: set<nat>, root: nat, p: Path, f: nat, r: Path)
    requires Isolated(mem, mem', used, root) && Private(p) && Depth(p) == 4 && PagesApart(mem, root)
    requires forall r | !Within(p, r) :: AgreeAt(mem, mem', root, r)
    requires forall g | Owns(mem, root, g) :: g in used
    requires AgreeAt(mem, mem', root, p) || (EntryAt(mem', root, p).frame == f && !Owns(mem, root, f))
    requires OutsideTree(mem', root, f) && OwnedPage(mem', root, r)
    ensures if r != p || AgreeAt(mem, mem', root, p)
            then OwnedPage(mem, root, r) && AgreeAt(mem, mem', root, r) && Owns(mem, root, EntryAt(mem, root, r).frame)
            else EntryAt(mem', root, r).frame == f
    ensures OutsideTree(mem', root, EntryAt(mem', root, r).frame)
  {
    if r != p || AgreeAt(mem, mem', root, p) {
      SameDepth(p, r);
      assert AgreeAt(mem, mem', root, r);
      var g := EntryAt(mem, root, r).frame;
      assert OwnsAt(mem, root, g, r);
      forall t ensures TableAt(mem, root, t) != g { assert PageApart(mem, root, r, t); }
      forall t ensures TableAt(mem', root, t) != g { NotMadeTable(mem, mem', used, root, p, g, t); }
    }
  }

  lemma {:induction false} SameDepth(p: Path, q: Path)
    requires Depth(p) == Depth(q)
    ensures Within(p, q) ==> p == q
  {
    if p.Child? { WithinDepth(p.up, q); }
  }

  lemma {:induction false} FrameNumber(f: nat)
    requires f < MAX_FRAMES
    ensures FrameOf(f * FRAME_SIZE) == f
  {
    FrameAddress(f);
  }

  // ----- the kernel's own space

  /** The kernel's space is as it was in `m0`, and shares no private table with `root`. */
  ghost predicate KernelIntact(m0: Memory, mem: Memory, used: set<nat>, root: nat, kernel: nat) {
    && (forall p {:trigger TableAt(mem, kernel, p)} ::
          TableAt(mem, kernel, p) == TableAt(m0, kernel, p)
              && (TableAt(m0, kernel, p) >= 0 ==> TableAt(m0, kernel, p) in used))
    && (forall p {:trigger AgreeAt(m0, mem, kernel, p)} :: AgreeAt(m0, mem, kernel, p))
    && Apart(mem, root, kernel)
  }

  lemma {:induction false} KernelStaysIntact(m0: Memory, mem: Memory, mem': Memory, base: set<nat>, used: set<nat>,
                                            root: nat, kernel: nat)
    requires KernelIntact(m0, mem, base, root, kernel) && Isolated(mem, mem', used, root) && base <= used
    ensures KernelIntact(m0, mem', base, root, kernel)
  {
    forall p
      ensures TableAt(mem', kernel, p) == TableAt(m0, kernel, p) && AgreeAt(m0, mem', kernel, p)
      ensures TableAt(m0, kernel, p) >= 0 ==> TableAt(m0, kernel, p) in base
                                              && !PrivateTable(mem', root, TableAt(m0, kernel, p))
    {
      OtherSpaceKept(mem, mem', used, root, kernel, p);
      assert TableAt(mem, kernel, p) == TableAt(m0, kernel, p) && AgreeAt(m0, mem, kernel, p);
    }
  }

  // ----- the whole life

  predicate InSlot0(p: Path) {
    Within(p, Child(Root, 0))
  }

  ghost predicate OnlySlot0(mem: Memory, root: nat) {
    forall p {:trigger EntryAt(mem, root, p)} | Private(p) && !InSlot0(p) :: EntryAt(mem, root, p) == ZERO
  }

  /** destroy_address_space gives back everything exactly when PML4 slots 1 to 511 are
      empty; what hangs below them stays in use. */
  lemma {:induction false} DestroyExact(mem: Memory, root: nat, base: set<nat>, used: set<nat>, used': set<nat>)
    requires Tree(mem, root) && Balanced(mem, root, base, used) && PagesApart(mem, root)
    requires forall f {:trigger f in used'} ::
               f in used' <==> f in used && f != root && !OwnedIn(mem, root, f, Child(Root, 0))
    ensures used' == base <==> OnlySlot0(mem, root)
    ensures base <= used'
  {
    var slot0 := Child(Root, 0);
    forall f | f in base ensures f in used' {
      assert !Owns(mem, root, f);
    }
    if OnlySlot0(mem, root) {
      forall f | f in used' ensures f in base {
        forall p ensures !OwnsAt(mem, root, f, p) {
          assert OwnsAt(mem, root, f, p) && InSlot0(p) ==> OwnedIn(mem, root, f, slot0);
        }
        assert !Owns(mem, root, f);
      }
    } else {
      var p :| Private(p) && !InSlot0(p) && EntryAt(mem, root, p) != ZERO;
      var top := TopOf(mem, root, p);
      var f := EntryAt(mem, root, top).frame;
      assert OwnsAt(mem, root, f, top) && Owns(mem, root, f);
      assert f != root by { assert SamePath(mem, root, top, Root); }
      forall q ensures !(OwnsAt(mem, root, f, q) && InSlot0(q)) {
        assert SamePath(mem, root, top, q) && PageApart(mem, root, q, top);
      }
      assert f in used' && f !in base;
    }
  }

  /** A present entry below slot i of the PML4 has that slot's table above it. */
  lemma {:induction false} TopOf(mem: Memory, root: nat, p: Path) returns (top: Path)
    requires Private(p) && !InSlot0(p) && EntryAt(mem, root, p) != ZERO
    ensures top.Child? && top.up == Root && Private(top) && !InSlot0(top) && Points(EntryAt(mem, root, top), Depth(top))
  {
    if p.up == Root {
      top := p;
      assert Depth(top) == 1;
    } else {
      PrivateUp(p);
      top := TopOf(mem, root, p.up);
    }
  }

  /** What one mapping does for the other pages, and for the other PML4 slots. */
  lemma {:induction false} FillStep(mem: Memory, mem': Memory, root: nat, p: Path, f: nat, flags: Flags, ok: bool,
                                    r: Path)
    requires Private(p) && Depth(p) == 4 && r.Child? && Mapped(mem, mem', root, p, f, flags, ok)
    ensures Depth(r) == 4 && r != p ==> EntryAt(mem', root, r) == EntryAt(mem, root, r)
    ensures InSlot0(p) && !InSlot0(r) ==> EntryAt(mem', root, r) == EntryAt(mem, root, r)
  {
    if Depth(r) == 4 { SameDepth(p, r); }
    if InSlot0(p) && !InSlot0(r) && Within(p, r) { WithinEither(p, r, Child(Root, 0)); }
    if !Within(p, r) { assert AgreeAt(mem, mem', root, r); }
  }

  /** Two ancestors of one path are ancestors of each other; the top one is the higher. */
  lemma {:induction false} WithinEither(p: Path, q: Path, top: Path)
    requires Within(p, q) && Within(p, top) && q.Child? && top.Child? && top.up == Root
    ensures Within(q, top)
  {
    if p != q && p != top { WithinEither(p.up, q, top); }
  }

  predicate AllInSlot0(pages: seq<nat>) {
    forall i | 0 <= i < |pages| :: InSlot0(PathOf(pages[i]))
  }

  /** Some page of those numbered in `mapped` has the path. */
  ghost predicate Hit(pages: seq<nat>, mapped: set<nat>, p: Path) {
    exists k {:trigger k in mapped} :: k in mapped && k < |pages| && PathOf(pages[k]) == p
  }

  /** No page was mapped twice. */
  ghost predicate NoneTwice(pages: seq<nat>, mapped: set<nat>) {
    forall j, k {:trigger j in mapped, k in mapped} | j in mapped && k in mapped && j < k < |pages| ::
      PathOf(pages[j]) != PathOf(pages[k])
  }

  /** The private pages the space holds are those mapped so far. */
  ghost predicate Filled(mem: Memory, root: nat, pages: seq<nat>, mapped: set<nat>) {
    forall r: Path {:trigger EntryAt(mem, root, r)} | Private(r) && Depth(r) == 4 ::
      if Hit(pages, mapped, r) then EntryAt(mem, root, r).present && EntryAt(mem, root, r).owned
          else EntryAt(mem, root, r) == ZERO
  }

  lemma {:induction false} FilledNext(mem: Memory, mem': Memory, root: nat, pages: seq<nat>, mapped: set<nat>, i: nat,
                                     f: nat, flags: Flags, ok: bool)
    requires i < |pages| && (forall k | k in mapped :: k < i) && Filled(mem, root, pages, mapped) && flags.owned
    requires Private(PathOf(pages[i])) && Mapped(mem, mem', root, PathOf(pages[i]), f, flags, ok)
    requires forall r: Path {:trigger EntryAt(mem', root, r)} | Depth(r) == 4 && r != PathOf(pages[i]) ::
               EntryAt(mem', root, r) == EntryAt(mem, root, r)
    ensures var mapped' := if ok then mapped + {i} else mapped;
            Filled(mem', root, pages, mapped')
            && (NoneTwice(pages, mapped') <==> NoneTwice(pages, mapped) && Lost(mem, root, PathOf(pages[i]), ok) == {})
  {
    var mapped', p := if ok then mapped + {i} else mapped, PathOf(pages[i]);
    forall r ensures Hit(pages, mapped', r) <==> Hit(pages, mapped, r) || (ok && r == p) {
      if k :| k in mapped && k < |pages| && PathOf(pages[k]) == r { assert k in mapped'; }
      if ok { assert i in mapped'; }
    }
    if Hit(pages, mapped, p) && ok {
      var k :| k in mapped && k < |pages| && PathOf(pages[k]) == p;
      assert k in mapped' && i in mapped';
    }
  }

  // ----- no large pages

  predicate SmallAt(mem: Memory, root: nat, p: Path) {
    WalkTo(mem, root, p).Page? ==> WalkTo(mem, root, p).at == p
  }

  /** No page outside the shared kernel map lies under a large one. */
  ghost predicate SmallOnly(mem: Memory, root: nat) {
    forall p {:trigger SmallAt(mem, root, p)} | Private(p) && Depth(p) == 4 :: SmallAt(mem, root, p)
  }

  lemma {:induction false} SmallAfter(mem: Memory, mem': Memory, root: nat, p: Path, f: nat, flags: Flags, ok: bool)
    requires SmallOnly(mem, root) && p.Child? && Mapped(mem, mem', root, p, f, flags, ok)
    ensures SmallOnly(mem', root)
  {
    forall r | Private(r) && Depth(r) == 4 ensures SmallAt(mem', root, r) {
      assert SmallAt(mem, root, r);
      var w := WalkTo(mem', root, r);
    }
  }

  lemma {:induction false} SmallWay(mem: Memory, root: nat, p: Path)
    requires Private(p) && Depth(p) == 4 && SmallOnly(mem, root)
    ensures NotLarge(mem, root, p.up)
  {
    assert SmallAt(mem, root, p);
    if !NotLarge(mem, root, p.up) { LargeFound(mem, root, p.up); }
  }

  /** Below a large page every walk ends in it. */
  lemma {:induction false} LargeFound(mem: Memory, root: nat, q: Path)
    requires !NotLarge(mem, root, q)
    ensures WalkTo(mem, root, q).Page? && Depth(WalkTo(mem, root, q).at) <= Depth(q)
  {
    if LargeAt(mem, root, q) {
      WalkReaches(mem, root, q.up);
    } else {
      LargeFound(mem, root, q.up);
    }
  }

  lemma {:induction false} NoneLarge(mem: Memory, root: nat, q: Path)
    requires forall p {:trigger EntryAt(mem, root, p)} | Private(p) && p != Child(Root, 0) ::
             EntryAt(mem, root, p) == ZERO
    requires !Within(q, KERNEL)
    ensures NotLarge(mem, root, q)
  {
    if q.Child? {
      NoneLarge(mem, root, q.up);
      assert Depth(Child(Root, 0)) == 1;
    }
  }

  /** One page of a space that leaves the kernel's alone. */
  method MapFrame(s: AddressSpaces, root: nat, virtAddr: nat, f: nat, flags: Flags,
                  ghost base: set<nat>, ghost used: set<nat>, ghost m0: Memory, ghost kernel: nat) returns (ok: bool)
    requires s.Valid() && s.Space(root) && 0 in base && Balanced(s.mem, root, base, used) && PagesApart(s.mem, root)
    requires f != 0 && f !in used && s.pmm.Used() == used + {f} && f < MAX_FRAMES
    requires OutsideTree(s.mem, root, f) && KernelIntact(m0, s.mem, base, root, kernel)
    requires Private(PathOf(virtAddr)) && flags.owned
    modifies s`mem, s.pmm, s.pmm.bitmap
    ensures var now := base + Lost(old(s.mem), root, PathOf(virtAddr), ok);
            Alive(s, root, now) && KernelIntact(m0, s.mem, now, root, kernel)
    ensures Mapped(old(s.mem), s.mem, root, PathOf(virtAddr), f, flags, ok)
    ensures forall r: Path {:trigger EntryAt(s.mem, root, r)} | Depth(r) == 4 && r != PathOf(virtAddr) ::
              EntryAt(s.mem, root, r) == old(EntryAt(s.mem, root, r))
    ensures InSlot0(PathOf(virtAddr)) && old(OnlySlot0(s.mem, root)) ==> OnlySlot0(s.mem, root)
    ensures Spare(old(s.mem), root, virtAddr, old(s.pmm.freeCount), s.pmm.freeCount, ok)
  {
    ghost var mem, p := s.mem, PathOf(virtAddr);
    ok := MapOwned(s, root, virtAddr, f, flags, base, used);
    KernelStaysIntact(m0, mem, s.mem, base, used, root, kernel);
    forall r: Path | r.Child?
      ensures Depth(r) == 4 && r != p ==> EntryAt(s.mem, root, r) == EntryAt(mem, root, r)
      ensures InSlot0(p) && !InSlot0(r) ==> EntryAt(s.mem, root, r) == EntryAt(mem, root, r)
    {
      FillStep(mem, s.mem, root, p, f, flags, ok, r);
    }
  }

  /** After the first n pages: which are mapped, and which frames are lost. */
  ghost predicate Tally(mem: Memory, root: nat, pages: seq<nat>, n: nat, mapped: set<nat>, base: set<nat>,
                        lost: set<nat>)
  {
    && Filled(mem, root, pages, mapped) && (forall k | k in mapped :: k < n)
    && (lost == {} <==> NoneTwice(pages, mapped)) && base !! lost
  }

  lemma {:induction false} TallyNext(mem: Memory, mem': Memory, root: nat, pages: seq<nat>, i: nat, mapped: set<nat>,
                                    base: set<nat>, lost: set<nat>, used: set<nat>, f: nat, flags: Flags, ok: bool)
    requires i < |pages| && Private(PathOf(pages[i])) && flags.owned
    requires Tally(mem, root, pages, i, mapped, base, lost) && Balanced(mem, root, base + lost, used)
    requires Mapped(mem, mem', root, PathOf(pages[i]), f, flags, ok)
    requires forall r: Path {:trigger EntryAt(mem', root, r)} | Depth(r) == 4 && r != PathOf(pages[i]) ::
               EntryAt(mem', root, r) == EntryAt(mem, root, r)
    ensures var more := Lost(mem, root, PathOf(pages[i]), ok);
            Tally(mem', root, pages, i + 1, if ok then mapped + {i} else mapped, base, lost + more)
            && base + lost + more == base + (lost + more)
  {
    FilledNext(mem, mem', root, pages, mapped, i, f, flags, ok);
    LostApart(mem, root, PathOf(pages[i]), ok, base + lost, used);
  }

  ghost predicate Progress(s: AddressSpaces, root: nat, pages: seq<nat>, n: nat, mapped: set<nat>,
                           base: set<nat>, lost: set<nat>, m0: Memory, kernel: nat)
    reads s, s.pmm, s.pmm.bitmap
  {
    && Alive(s, root, base + lost) && KernelIntact(m0, s.mem, base + lost, root, kernel)
    && Tally(s.mem, root, pages, n, mapped, base, lost) && SmallOnly(s.mem, root)
  }

  /** A page may be left unmapped for a misaligned address, or with at most one frame to spare. */
  predicate Excused(va: nat, ok: bool, spare: nat) {
    ok || va % FRAME_SIZE != 0 || spare <= 1
  }

  /** A page of a fresh frame is mapped, also over a page that is there already. */
  method FillOne(s: AddressSpaces, root: nat, pages: seq<nat>, i: nat, flags: Flags, ghost mapped: set<nat>,
                 ghost base: set<nat>, ghost lost: set<nat>, ghost m0: Memory, ghost kernel: nat)
    returns (ok: bool, ghost lost': set<nat>)
    requires i < |pages| && Private(PathOf(pages[i])) && flags.owned
    requires Progress(s, root, pages, i, mapped, base, lost, m0, kernel)
    modifies s`mem, s.pmm, s.pmm.bitmap
    ensures Progress(s, root, pages, i + 1, if ok then mapped + {i} else mapped, base, lost', m0, kernel)
    ensures InSlot0(PathOf(pages[i])) && old(OnlySlot0(s.mem, root)) ==> OnlySlot0(s.mem, root)
    ensures Excused(pages[i], ok, s.pmm.freeCount) && old(s.pmm.freeCount) <= s.pmm.freeCount + 4
  {
    ghost var used, mem := s.pmm.Used(), s.mem;
    SmallWay(mem, root, PathOf(pages[i]));
    var f := s.AllocFrame();
    if f == 0 { return false, lost; }
    ok := MapFrame(s, root, pages[i], f, flags, base + lost, used, m0, kernel);
    lost' := lost + Lost(mem, root, PathOf(pages[i]), ok);
    TallyNext(mem, s.mem, root, pages, i, mapped, base, lost, used, f, flags, ok);
    SmallAfter(mem, s.mem, root, PathOf(pages[i]), f, flags, ok);
  }

  lemma {:induction false} LostApart(mem: Memory, root: nat, p: Path, ok: bool, base: set<nat>, used: set<nat>)
    requires Balanced(mem, root, base, used)
    ensures base !! Lost(mem, root, p, ok)
  {
    if OwnedPage(mem, root, p) {
      assert OwnsAt(mem, root, EntryAt(mem, root, p).frame, p);
      assert Owns(mem, root, EntryAt(mem, root, p).frame);
    }
  }

  /** Owned pages of fresh frames are mapped one by one; a failure does not stop the rest. */
  method FillPages(s: AddressSpaces, root: nat, pages: seq<nat>, flags: seq<Flags>,
                   ghost base: set<nat>, ghost m0: Memory, ghost kernel: nat)
    returns (mapped: set<nat>, ghost lost: set<nat>, ghost spare: seq<nat>)
    requires Alive(s, root, base) && KernelIntact(m0, s.mem, base, root, kernel) && OnlySlot0(s.mem, root)
    requires |flags| == |pages| && forall i | 0 <= i < |pages| :: Private(PathOf(pages[i])) && flags[i].owned
    requires Filled(s.mem, root, pages, {}) && SmallOnly(s.mem, root)
    modifies s`mem, s.pmm, s.pmm.bitmap
    ensures Progress(s, root, pages, |pages|, mapped, base, lost, m0, kernel)
    ensures AllInSlot0(pages) ==> OnlySlot0(s.mem, root)
    ensures Accounted(pages, |pages|, mapped, spare, old(s.pmm.freeCount))
  {
    mapped, lost, spare := {}, {}, [];
    assert base + lost == base;
    for i := 0 to |pages|
      invariant Progress(s, root, pages, i, mapped, base, lost, m0, kernel)
      invariant AllInSlot0(pages) ==> OnlySlot0(s.mem, root)
      invariant Accounted(pages, i, mapped, spare, old(s.pmm.freeCount))
      invariant old(s.pmm.freeCount) <= s.pmm.freeCount + 4 * i
    {
      var ok;
      ok, lost := FillOne(s, root, pages, i, flags[i], mapped, base, lost, m0, kernel);
      AccountedNext(pages, i, mapped, spare, old(s.pmm.freeCount), ok, s.pmm.freeCount);
      spare := spare + [s.pmm.freeCount];
      if ok { mapped := mapped + {i}; }
    }
  }

  lemma {:induction false} AccountedNext(pages: seq<nat>, n: nat, mapped: set<nat>, spare: seq<nat>, start: nat,
                                         ok: bool, free: nat)
    requires n < |pages| && Accounted(pages, n, mapped, spare, start) && n !in mapped
    requires Excused(pages[n], ok, free) && start <= free + 4 * (n + 1)
    ensures Accounted(pages, n + 1, if ok then mapped + {n} else mapped, spare + [free], start)
  {
  }

  /** spare[i] frames were free after page i, at most four per page fewer than at the start; none was
      free where an aligned page was left unmapped, but for the one given back. */
  ghost predicate Accounted(pages: seq<nat>, n: nat, mapped: set<nat>, spare: seq<nat>, start: nat) {
    && |spare| == n <= |pages|
    && forall i | 0 <= i < n :: Excused(pages[i], i in mapped, spare[i]) && start <= spare[i] + 4 * (i + 1)
  }

  /** A space is created, pages are mapped, each of which may fail, and the space is destroyed.
      The kernel's translations never change. If every page lies below 2^39, all frames are given
      back exactly if none was mapped twice; if a page above was mapped, they are not. No space is
      created only with fewer than two frames free, or without the kernel's first PML4 entry, and an
      aligned page is left unmapped only with no frame free, so not if there were four per page. */
  method Life(s: AddressSpaces, kernel: nat, pages: seq<nat>, flags: seq<Flags>)
    returns (mapped: set<nat>, ghost spare: seq<nat>)
    requires s.Valid() && s.Space(kernel) && !EntryAt(s.mem, kernel, KERNEL).user
    requires |flags| == |pages| && forall i | 0 <= i < |pages| :: Private(PathOf(pages[i])) && flags[i].owned
    modifies s`mem, s.pmm, s.pmm.bitmap
    ensures s.Valid() && forall i | i in mapped :: i < |pages|
    ensures forall p :: WalkTo(s.mem, kernel, p) == old(WalkTo(s.mem, kernel, p))
    ensures old(s.pmm.Used()) <= s.pmm.Used()
    ensures AllInSlot0(pages) ==> (s.pmm.Used() == old(s.pmm.Used()) <==> NoneTwice(pages, mapped))
    ensures (exists i | i in mapped :: !InSlot0(PathOf(pages[i]))) ==> s.pmm.Used() != old(s.pmm.Used())
    ensures if old(EntryAt(s.mem, kernel, Child(Root, 0))).present && old(s.pmm.freeCount) >= 2
            then Accounted(pages, |pages|, mapped, spare, old(s.pmm.freeCount) - 2) else mapped == {}
  {
    ghost var base, m0 := s.pmm.Used(), s.mem;
    var root := s.CreateAddressSpace(kernel);
    if root == 0 { return {}, []; }
    EmptyFilled(s.mem, root, pages);
    ghost var lost;
    mapped, lost, spare := FillPages(s, root, pages, flags, base, m0, kernel);
    ghost var used := s.pmm.Used();
    s.DestroyAddressSpace(root);
    DestroyExact(s.mem, root, base + lost, used, s.pmm.Used());
    SameWalks(m0, s.mem, kernel);
    forall i | i in mapped ensures EntryAt(s.mem, root, PathOf(pages[i])) != ZERO {
      assert Hit(pages, mapped, PathOf(pages[i]));
    }
  }

  lemma {:induction false} SameWalks(mem: Memory, mem': Memory, root: nat)
    requires forall q {:trigger AgreeAt(mem, mem', root, q)} :: AgreeAt(mem, mem', root, q)
    ensures forall p :: WalkTo(mem', root, p) == WalkTo(mem, root, p)
  {
    forall p ensures WalkTo(mem', root, p) == WalkTo(mem, root, p) { SameWalk(mem, mem', root, p); }
  }

  lemma {:induction false} EmptyFilled(mem: Memory, root: nat, pages: seq<nat>)
    requires forall p {:trigger EntryAt(mem, root, p)} | Private(p) && p != Child(Root, 0) ::
             EntryAt(mem, root, p) == ZERO
    ensures Filled(mem, root, pages, {}) && OnlySlot0(mem, root) && SmallOnly(mem, root)
  {
    assert Depth(Child(Root, 0)) == 1;
    EmptySmall(mem, root);
  }

  lemma {:induction false} EmptySmall(mem: Memory, root: nat)
    requires forall p {:trigger EntryAt(mem, root, p)} | Private(p) && p != Child(Root, 0) ::
             EntryAt(mem, root, p) == ZERO
    ensures SmallOnly(mem, root)
  {
    assert Depth(Child(Root, 0)) == 1;
    forall p | Private(p) && Depth(p) == 4 ensures SmallAt(mem, root, p) {
      NoneLarge(mem, root, p.up);
      FaultsIfAbsent(mem, root, p);
    }
  }

  // ----- map, then unmap

  /** Every table but the root holds something. */
  ghost predicate NoEmptyTable(mem: Memory, root: nat) {
    forall q: Path {:trigger TableAt(mem, root, q)} | q.Child? && TableAt(mem, root, q) >= 0 ::
      exists j: nat :: j < ENTRIES && EntryAt(mem, root, Child(q, j)) != ZERO
  }

  /** The step below `q` on the way to `p`. */
  function Toward(p: Path, q: Path): (x: Path)
    requires Within(p, q) && p != q
    ensures x.Child? && x.up == q && Within(p, x) && Within(x, q)
  {
    if p.up == q then p else Toward(p.up, q)
  }

  lemma {:induction false} VanishesSplit(mem: Memory, root: nat, p: Path, q: Path)
    requires Within(p, q) && p != q
    ensures var x := Toward(p, q);
            Vanishes(mem, root, p, q) <==> Alone(mem, root, x) && (x == p || Vanishes(mem, root, p, x))
  {
    if p.up != q {
      VanishesSplit(mem, root, p.up, q);
      WithinDepth(p.up, Toward(p, q));
    }
  }

  lemma {:induction false} NotLargeAt(mem: Memory, root: nat, p: Path, q: Path)
    requires NotLarge(mem, root, p) && Within(p, q) && q.Child?
    ensures EntryAt(mem, root, q).present ==> TableAt(mem, root, q) >= 0
  {
    if p != q { NotLargeAt(mem, root, p.up, q); }
  }

  /** The tables that vanish with the page are exactly those that came with it. */
  lemma {:induction false} VanishesIfNew(m0: Memory, m1: Memory, root: nat, p: Path, q: Path)
    requires p.Child? && Within(p, q) && p != q && q.Child?
    requires NoEmptyTable(m0, root) && EntryAt(m0, root, p) == ZERO && NotLarge(m0, root, p.up)
    requires forall r | !Within(p, r) :: AgreeAt(m0, m1, root, r)
    ensures Vanishes(m1, root, p, q) <==> TableAt(m0, root, q) < 0
    decreases Depth(p) - Depth(q)
  {
    var x := Toward(p, q);
    VanishesSplit(m1, root, p, q);
    SiblingsKept(m0, m1, root, p, x);
    WithinDepth(p, x);
    if x != p { VanishesIfNew(m0, m1, root, p, x); }
    if TableAt(m0, root, q) < 0 {
      forall j: nat ensures EntryAt(m0, root, Child(q, j)) == ZERO {}
    } else {
      var j: nat :| j < ENTRIES && EntryAt(m0, root, Child(q, j)) != ZERO;
      if x != p { NotLargeAt(m0, root, p.up, x); }
      assert x == Child(q, x.index);
    }
  }

  lemma {:induction false} SiblingsKept(m0: Memory, m1: Memory, root: nat, p: Path, x: Path)
    requires x.Child? && Within(p, x)
    requires forall r | !Within(p, r) :: AgreeAt(m0, m1, root, r)
    ensures forall j: nat | j != x.index :: EntryAt(m1, root, Child(x.up, j)) == EntryAt(m0, root, Child(x.up, j))
  {
    forall j: nat | j != x.index ensures EntryAt(m1, root, Child(x.up, j)) == EntryAt(m0, root, Child(x.up, j)) {
      OneSibling(p, x, Child(x.up, j));
      assert AgreeAt(m0, m1, root, Child(x.up, j));
    }
  }

  lemma {:induction false} OneSibling(p: Path, x: Path, y: Path)
    requires x.Child? && y.Child? && x.up == y.up && x != y && Within(p, x)
    ensures !Within(p, y)
  {
    if p == x {
      NotWithinSelf(x);
      WithinDepth(p.up, y);
    } else {
      OneSibling(p.up, x, y);
      WithinDepth(p.up, x);
    }
  }

  lemma {:induction false} SameGain(m0: Memory, m1: Memory, m2: Memory, root: nat, p: Path, q: Path)
    requires Within(p, q) && (q.Child? ==> q != p)
    requires forall x: Path | x.Child? && Within(p, x) && x != p ::
             TableAt(m2, root, x) < 0 <==> TableAt(m0, root, x) < 0
    ensures Gained(m2, m1, root, q) == Gained(m0, m1, root, q)
  {
    if q.Child? {
      WithinTransitive(p, q, q.up);
      WithinDepth(p, q);
      SameGain(m0, m1, m2, root, p, q.up);
    }
  }

  /** A page without an entry of its own, and not inside a large page, faults. */
  lemma {:induction false} FaultsIfAbsent(mem: Memory, root: nat, p: Path)
    requires p.Child? && EntryAt(mem, root, p) == ZERO && NotLarge(mem, root, p.up)
    ensures WalkTo(mem, root, p) == Fault
  {
    NoPageAbove(mem, root, p.up);
  }

  lemma {:induction false} NoPageAbove(mem: Memory, root: nat, q: Path)
    requires NotLarge(mem, root, q)
    ensures !WalkTo(mem, root, q).Page?
  {
    if q.Child? { NoPageAbove(mem, root, q.up); }
  }

  /** Mapping an unmapped page and unmapping it again restores every translation and the
      exact set of frames in use. */
  method MapThenUnmap(s: AddressSpaces, root: nat, virtAddr: nat, physAddr: nat, flags: Flags) returns (ok: bool)
    requires s.Valid() && s.Space(root) && Private(PathOf(virtAddr))
    requires EntryAt(s.mem, root, PathOf(virtAddr)) == ZERO && NoEmptyTable(s.mem, root)
    modifies s`mem, s.pmm, s.pmm.bitmap
    ensures s.Valid() && s.Space(root)
    ensures WalksKept(old(s.mem), s.mem, root)
    ensures ok ==> s.pmm.Used() == old(s.pmm.Used())
  {
    ghost var m0, p, used := s.mem, PathOf(virtAddr), s.pmm.Used();
    ok := s.MapPageIn(root, virtAddr, physAddr, flags);
    if !ok { return; }
    ghost var m1 := s.mem;
    var undone := s.UnmapPage(root, virtAddr);
    forall q: Path | q.Child? && Within(p, q) && q != p
      ensures TableAt(s.mem, root, q) < 0 <==> TableAt(m0, root, q) < 0
    {
      VanishesIfNew(m0, m1, root, p, q);
    }
    SameGain(m0, m1, s.mem, root, p, p.up);
    FaultsIfAbsent(m0, root, p);
    forall r | Depth(r) == 4 && r != p ensures WalkTo(s.mem, root, r) == WalkTo(m0, root, r) {
      assert WalkTo(m1, root, r) == WalkTo(m0, root, r);
    }
  }
}

/** kernel/paging.cpp: mapping, unmapping, creating and destroying address spaces in place,
    over the frame allocator. Frames are numbers; an address is 4096 times its frame. */
module Paging {
  import opened Frames
  import opened PageModel

  const TWO_39: nat := 0x80_0000_0000
  const TWO_30: nat := 0x4000_0000
  const TWO_21: nat := 0x20_0000
  const TWO_36: nat := 0x10_0000_0000

  function PagePath(a: nat, b: nat, c: nat, d: nat): (p: Path)
    ensures Depth(p) == 4
  {
    assert Depth(Child(Root, a)) == 1;
    assert Depth(Child(Child(Child(Root, a), b), c)) == 3;
    Child(Child(Child(Child(Root, a), b), c), d)
  }

  /** The four indices of a virtual address. */
  function PathOf(va: nat): Path {
    PagePath(va / TWO_39 % ENTRIES, va / TWO_30 % ENTRIES, va / TWO_21 % ENTRIES, va / FRAME_SIZE % ENTRIES)
  }

  /** Two addresses take the same path exactly when they lie in the same page, counting
      pages modulo 2^36: bits 48 and up are ignored. */
  lemma {:induction false} SamePage(a: nat, b: nat)
    ensures PathOf(a) == PathOf(b) <==> a / FRAME_SIZE % TWO_36 == b / FRAME_SIZE % TWO_36
  {
    Quotients(a);
    Quotients(b);
    Digits(a / FRAME_SIZE, b / FRAME_SIZE);
  }

  /** The four indices, nine bits each, the highest first, are bits 12 to 47 of the address. */
  lemma {:induction false} PathNumber(va: nat)
    ensures var p := PathOf(va);
            && FourDeep(p) && p.index < 512 && p.up.index < 512 && p.up.up.index < 512 && p.up.up.up.index < 512
            && TWO_27 * p.up.up.up.index + TWO_18 * p.up.up.index + 512 * p.up.index + p.index
               == va / FRAME_SIZE % TWO_36
  {
    var n := va / FRAME_SIZE;
    Quotients(va);
    Digit36(n);
    Digit27(n / 512);
    Digit18(n / 512 / 512);
  }

  /** The physical address the processor forms: a 4 KiB page takes the low 12 bits of the address, a
      large page the low 21 or 30. */
  function Physical(w: Walk, va: nat): nat
    requires w.Page?
  {
    w.frame * FRAME_SIZE + va % (if Depth(w.at) == 4 then FRAME_SIZE else if Depth(w.at) == 3 then TWO_21 else TWO_30)
  }

  const TWO_27: nat := 0x800_0000
  const TWO_18: nat := 0x4_0000

  /** Four base-512 digits determine a page number modulo 2^36. */
  lemma {:induction false} Digits(a: nat, b: nat)
    ensures a % TWO_36 == b % TWO_36 <==>
              && a % 512 == b % 512 && a / 512 % 512 == b / 512 % 512
              && a / 512 / 512 % 512 == b / 512 / 512 % 512 && a / 512 / 512 / 512 % 512 == b / 512 / 512 / 512 % 512
  {
    Digit36(a);
    Digit36(b);
    Digit27(a / 512);
    Digit27(b / 512);
    Digit18(a / 512 / 512);
    Digit18(b / 512 / 512);
  }

  lemma {:induction false} Digit36(n: nat)
    ensures n % TWO_36 == 512 * (n / 512 % TWO_27) + n % 512
  {
  }

  lemma {:induction false} Digit27(n: nat)
    ensures n % TWO_27 == 512 * (n / 512 % TWO_18) + n % 512
  {
  }

  lemma {:induction false} Digit18(n: nat)
    ensures n % TWO_18 == 512 * (n / 512 % 512) + n % 512
  {
  }

  /** Each shift is nine bits further than the one before. */
  lemma {:induction false} Quotients(va: nat)
    ensures va / TWO_21 == va / FRAME_SIZE / 512
    ensures va / TWO_30 == va / FRAME_SIZE / 512 / 512
    ensures va / TWO_39 == va / FRAME_SIZE / 512 / 512 / 512
  {
    Shift21(va);
    Shift30(va);
    Shift39(va);
  }

  lemma {:induction false} Shift21(va: nat)
    ensures va / TWO_21 == va / FRAME_SIZE / 512
  {
  }

  lemma {:induction false} Shift30(va: nat)
    ensures va / TWO_30 == va / TWO_21 / 512
  {
  }

  lemma {:induction false} Shift39(va: nat)
    ensures va / TWO_39 == va / TWO_30 / 512
  {
  }

  /** The first gigabyte is the shared kernel map; PML4 slot 0 ends at 2^39. */
  lemma {:induction false} AddressRegions(va: nat)
    requires va < 0x1_0000_0000_0000
    ensures Private(PathOf(va)) <==> va >= TWO_30
    ensures Within(PathOf(va), Child(Root, 0)) <==> va < TWO_39
  {
    var p := PathOf(va);
    WithinSlots(p, Child(Root, 0));
    Quotients(va);
  }

  lemma {:induction false} WithinSlots(p: Path, slot: Path)
    requires p.Child? && p.up.Child? && p.up.up.Child? && p.up.up.up.Child? && p.up.up.up.up == Root
    requires slot.Child? && slot.up == Root
    ensures Within(p, slot) <==> p.up.up.up == slot
    ensures forall i :: Within(p, Child(slot, i)) <==> p.up.up == Child(slot, i)
  {
    var top := p.up.up.up;
    assert Within(top, slot) <==> top == slot;
    assert Within(p.up.up, slot) <==> Within(top, slot);
    forall i ensures Within(p, Child(slot, i)) <==> p.up.up == Child(slot, i) {
      assert !Within(top, Child(slot, i));
      assert Within(p.up.up, Child(slot, i)) <==> p.up.up == Child(slot, i);
      assert Within(p.up, Child(slot, i)) <==> Within(p.up.up, Child(slot, i));
    }
  }

  /** The flags argument of map_page_in, without address bits. */
  datatype Flags = Flags(writable: bool, user: bool, owned: bool, huge: bool, nx: bool)

  function Widened(e: Entry, flags: Flags): Entry {
    e.(writable := true, user := e.user || flags.user, owned := e.owned || flags.owned)
  }

  function TableEntry(f: nat, flags: Flags): Entry {
    Entry(true, true, flags.user, flags.owned, false, false, f)
  }

  function PageEntry(f: nat, flags: Flags): Entry {
    Entry(true, flags.writable, flags.user, flags.owned, flags.huge, flags.nx, f)
  }

  const MAX_FRAMES: nat := 0x100_0000_0000

  /** (phys & ADDR_MASK) as a frame number: 40 bits. */
  function FrameOf(physAddr: nat): nat {
    physAddr / FRAME_SIZE % MAX_FRAMES
  }

  /** At most n of the free frames were taken. */
  predicate Spent(before: nat, after: nat, n: nat) {
    after <= before <= after + n
  }

  class AddressSpaces {
    var mem: Memory
    const pmm: FrameAllocator

    constructor (memory: Memory, allocator: FrameAllocator)
      ensures mem == memory && pmm == allocator
    {
      mem, pmm := memory, allocator;
    }

    /** The tables of `root` form a tree of frames in use, with the rights invariant. */
    ghost predicate Space(root: nat)
      reads this, pmm.bitmap
    {
      && Tree(mem, root) && RightsOk(mem, root)
      && (forall p {:trigger TableAt(mem, root, p)} :: TableAt(mem, root, p) >= 0 ==>
            TableAt(mem, root, p) in pmm.Used() && TableAt(mem, root, p) != 0)
    }

    ghost predicate Valid()
      reads this, pmm, pmm.bitmap
    {
      pmm.Valid() && 0 in pmm.Used() && 8 * pmm.bitmap.Length <= MAX_FRAMES
    }

    /** pmm::alloc_frame, as a frame number. */
    method AllocFrame() returns (f: nat)
      requires Valid()
      modifies pmm, pmm.bitmap
      ensures Valid()
      ensures f == 0 <==> old(pmm.freeCount) == 0
      ensures pmm.freeCount == old(pmm.freeCount) - if f == 0 then 0 else 1
      ensures f == 0 ==> pmm.Used() == old(pmm.Used())
      ensures f != 0 ==> f !in old(pmm.Used()) && pmm.Used() == old(pmm.Used()) + {f} && f < MAX_FRAMES
    {
      var addr := pmm.AllocFrame();
      f := addr / FRAME_SIZE;
      assert f in pmm.Used() ==> f < 8 * pmm.bitmap.Length;
    }

    method GetOrCreateTable(t: nat, i: nat, flags: Flags, ghost root: nat, ghost q: Path) returns (next: nat)
      requires Valid() && Space(root)
      requires q.Child? && q.index == i < ENTRIES && Depth(q) <= 3 && TableAt(mem, root, q.up) == t
      requires EntryAt(mem, root, q).present ==> Points(EntryAt(mem, root, q), Depth(q))
      requires flags.user && q.up.Child? ==> EntryAt(mem, root, q.up).user
      modifies this`mem, pmm, pmm.bitmap
      ensures Valid() && Space(root)
      ensures next == 0 ==> mem == old(mem) && pmm.Used() == old(pmm.Used()) && pmm.freeCount == 0
      ensures Spent(old(pmm.freeCount), pmm.freeCount, 1)
      ensures next != 0 ==>
        && TableAt(mem, root, q) == next && AgreeOff(old(mem), mem, root, q)
        && InnerStep(old(mem), mem, root, q)
        && (flags.user ==> EntryAt(mem, root, q).user)
        && (if old(EntryAt(mem, root, q)).present
            then pmm.Used() == old(pmm.Used()) && EntryAt(mem, root, q).frame == old(EntryAt(mem, root, q)).frame
            else next !in old(pmm.Used()) && pmm.Used() == old(pmm.Used()) + {next})
      ensures !Within(q, KERNEL) ==> Isolated(old(mem), mem, old(pmm.Used()), root)
    {
      assert TableOk(mem, root, q.up);
      if mem[t][i].present {
        assert TableAt(mem, root, q) != 0;
        WidenInner(mem, root, q, flags);
        ghost var before := mem;
        mem := mem[t := mem[t][i := Widened(mem[t][i], flags)]];
        if !Within(q, KERNEL) { StepIsolated(before, mem, pmm.Used(), root, q, t, 0); }
        return mem[t][i].frame;
      }
      next := AllocFrame();
      if next == 0 { return; }
      AddTable(mem, root, q, next, flags);
      ghost var before := mem;
      mem := mem[next := ZeroTable()];
      mem := mem[t := mem[t][i := TableEntry(next, flags)]];
      if !Within(q, KERNEL) { StepIsolated(before, mem, old(pmm.Used()), root, q, t, next); }
    }

    /** One level of the walk in map_page_in: the huge-page test, then the table. */
    method Descend(t: nat, i: nat, flags: Flags, checkHuge: bool, ghost root: nat, ghost q: Path) returns (next: nat)
      requires Valid() && Space(root)
      requires q.Child? && q.index == i < ENTRIES && Depth(q) <= 3 && TableAt(mem, root, q.up) == t && Private(q)
      requires checkHuge <==> Depth(q) >= 2
      requires flags.user && q.up.Child? ==> EntryAt(mem, root, q.up).user
      modifies this`mem, pmm, pmm.bitmap
      ensures Valid() && Space(root)
      ensures next != 0 && flags.user ==> EntryAt(mem, root, q).user
      ensures Descended(old(mem), mem, old(pmm.Used()), pmm.Used(), root, q, next)
      ensures next == 0 ==> pmm.freeCount == 0 || LargeAt(old(mem), root, q)
      ensures Spent(old(pmm.freeCount), pmm.freeCount, 1)
    {
      assert TableOk(mem, root, q.up);
      ghost var before := mem;
      if checkHuge && mem[t][i].present && mem[t][i].huge { return 0; }
      next := GetOrCreateTable(t, i, flags, root, q);
      if next == 0 { return; }
      forall r | Depth(r) == 4 ensures WalkTo(mem, root, r) == WalkTo(before, root, r) {
        InnerKeepsWalk(before, mem, root, q, r);
      }
      forall f ensures Owns(mem, root, f) <==> Owns(before, root, f) || f in pmm.Used() - old(pmm.Used()) {
        if EntryAt(before, root, q).present { OwnsSame(before, mem, root, q, f); }
        else { OwnsAdded(before, mem, root, q, f); }
      }
    }

    /** The page directory above a page, created where missing. */
    method MakeDirectory(root: nat, a: nat, b: nat, flags: Flags) returns (pd: nat)
      requires Valid() && Space(root) && a < ENTRIES && b < ENTRIES && Private(Child(Child(Root, a), b))
      modifies this`mem, pmm, pmm.bitmap
      ensures Valid() && Space(root)
      ensures var q := Child(Child(Root, a), b);
              Made(old(mem), mem, old(pmm.Used()), pmm.Used(), root, q, pd)
                  && (pd != 0 && flags.user ==> EntryAt(mem, root, q).user)
              && (pd == 0 ==> pmm.freeCount == 0 || !NotLarge(old(mem), root, q))
      ensures Spent(old(pmm.freeCount), pmm.freeCount, 2)
    {
      ghost var q1 := Child(Root, a);
      ghost var q2 := Child(q1, b);
      assert Depth(q1) == 1;
      assert Depth(q2) == 2;
      ghost var m0, used0 := mem, pmm.Used();
      var pdpt := Descend(root, a, flags, false, root, q1);
      if pdpt == 0 { return 0; }
      MadeFirst(m0, mem, used0, pmm.Used(), root, q1, pdpt);
      ghost var m1, used1 := mem, pmm.Used();
      pd := Descend(pdpt, b, flags, true, root, q2);
      LargeBefore(m0, m1, root, q2);
      MadeNext(m0, m1, mem, used0, used1, pmm.Used(), root, q2, pdpt, pd);
    }

    /** The three tables above a page, created where missing. */
    method MakeTables(root: nat, a: nat, b: nat, c: nat, flags: Flags) returns (pt: nat)
      requires Valid() && Space(root) && a < ENTRIES && b < ENTRIES && c < ENTRIES
      requires Private(Child(Child(Root, a), b))
      modifies this`mem, pmm, pmm.bitmap
      ensures Valid() && Space(root)
      ensures var q := Child(Child(Child(Root, a), b), c);
              Made(old(mem), mem, old(pmm.Used()), pmm.Used(), root, q, pt)
                  && (pt != 0 && flags.user ==> EntryAt(mem, root, q).user)
              && (pt == 0 ==> pmm.freeCount == 0 || !NotLarge(old(mem), root, q))
      ensures Spent(old(pmm.freeCount), pmm.freeCount, 3)
    {
      ghost var q2 := Child(Child(Root, a), b);
      ghost var q3 := Child(q2, c);
      PathDepths(PagePath(a, b, c, 0));
      ghost var m0, used0 := mem, pmm.Used();
      var pd := MakeDirectory(root, a, b, flags);
      if pd == 0 {
        assert forall p | !Within(q3, p) :: AgreeAt(m0, mem, root, p);
        return 0;
      }
      ghost var m1, used1 := mem, pmm.Used();
      PrivateDown(q2, c);
      pt := Descend(pd, c, flags, true, root, q3);
      LargeBefore(m0, m1, root, q3);
      MadeNext(m0, m1, mem, used0, used1, pmm.Used(), root, q3, pd, pt);
    }

    /** map_page_in after the address has been taken apart. */
    method MapAt(root: nat, a: nat, b: nat, c: nat, d: nat, frame: nat, flags: Flags) returns (ok: bool)
      requires Valid() && Space(root) && a < ENTRIES && b < ENTRIES && c < ENTRIES && d < ENTRIES
      requires Private(PagePath(a, b, c, d))
      modifies this`mem, pmm, pmm.bitmap
      ensures Valid() && Space(root) && Mapped(old(mem), mem, root, PagePath(a, b, c, d), frame, flags, ok)
      ensures old(pmm.Used()) <= pmm.Used() && Isolated(old(mem), mem, old(pmm.Used()), root)
      ensures Grown(old(mem), mem, root, PagePath(a, b, c, d), frame, flags, ok, pmm.Used() - old(pmm.Used()))
      ensures ok ==> Enlarged(old(pmm.Used()), pmm.Used(), Gained(old(mem), mem, root, PagePath(a, b, c, d).up))
      ensures !ok ==> pmm.freeCount == 0 || !NotLarge(old(mem), root, PagePath(a, b, c, d).up)
      ensures Spent(old(pmm.freeCount), pmm.freeCount, 3)
    {
      ghost var p := PagePath(a, b, c, d);
      PrivateUp(p);
      PrivateUp(p.up);
      ghost var m0 := mem;
      var pt := MakeTables(root, a, b, c, flags);
      NotWithinSelf(p);
      if pt == 0 { return false; }
      ghost var m1 := mem;
      assert AgreeAt(m0, m1, root, p) by { WithinDepth(p.up, p); }
      assert TableOk(mem, root, p.up);
      SetPage(mem, root, p, frame, flags);
      mem := mem[pt := mem[pt][d := PageEntry(frame, flags)]];
      StepIsolated(m1, mem, pmm.Used(), root, p, pt, 0);
      GainedSame(m0, m1, mem, root, p.up);
      IsolatedTwice(m0, m1, mem, old(pmm.Used()), pmm.Used(), root);
      forall r | Depth(r) == 4 && r != p ensures WalkTo(mem, root, r) == WalkTo(m0, root, r) {
        assert WalkTo(m1, root, r) == WalkTo(m0, root, r);
      }
      forall r | !Within(p, r) ensures AgreeAt(m0, mem, root, r) {
        assert AgreeAt(m0, m1, root, r) && AgreeAt(m1, mem, root, r);
      }
      return true;
    }

    /** A page at or above 1 GiB is mapped. Success changes the translation of exactly that
        page; success or failure leaves every other page alone, and what the space answers
        for grows by the new tables and the new page. It fails only for a misaligned address,
        under a large page, or with no frame left. */
    method MapPageIn(root: nat, virtAddr: nat, physAddr: nat, flags: Flags) returns (ok: bool)
      requires Valid() && Space(root) && Private(PathOf(virtAddr))
      modifies this`mem, pmm, pmm.bitmap
      ensures Valid() && Space(root)
      ensures ok ==> virtAddr % FRAME_SIZE == 0 && physAddr % FRAME_SIZE == 0
      ensures Mapped(old(mem), mem, root, PathOf(virtAddr), FrameOf(physAddr), flags, ok)
      ensures old(pmm.Used()) <= pmm.Used() && Isolated(old(mem), mem, old(pmm.Used()), root)
      ensures Grown(old(mem), mem, root, PathOf(virtAddr), FrameOf(physAddr), flags, ok, pmm.Used() - old(pmm.Used()))
      ensures ok ==> Enlarged(old(pmm.Used()), pmm.Used(), Gained(old(mem), mem, root, PathOf(virtAddr).up))
      ensures !ok ==> virtAddr % FRAME_SIZE != 0 || physAddr % FRAME_SIZE != 0
                      || !NotLarge(old(mem), root, PathOf(virtAddr).up) || pmm.freeCount == 0
      ensures Spent(old(pmm.freeCount), pmm.freeCount, 3)
    {
      if virtAddr % FRAME_SIZE != 0 || physAddr % FRAME_SIZE != 0 { return false; }
      ok := MapAt(root, virtAddr / TWO_39 % ENTRIES, virtAddr / TWO_30 % ENTRIES, virtAddr / TWO_21 % ENTRIES,
                  virtAddr / FRAME_SIZE % ENTRIES, FrameOf(physAddr), flags);
    }

    method FreeFrame(f: nat)
      requires Valid() && f != 0
      modifies pmm, pmm.bitmap
      ensures Valid() && pmm.Used() == old(pmm.Used()) - {f}
      ensures f in old(pmm.Used()) ==> pmm.freeCount == old(pmm.freeCount) + 1
    {
      FrameAddress(f);
      pmm.FreeFrame(f * FRAME_SIZE);
    }

    // ----- create and destroy

    /** Two frames, or none: the first is given back if there is no second. */
    method AllocTwo() returns (f: nat, g: nat)
      requires Valid()
      modifies pmm, pmm.bitmap
      ensures Valid()
      ensures f == 0 <==> old(pmm.freeCount) < 2
      ensures pmm.freeCount == old(pmm.freeCount) - if f == 0 then 0 else 2
      ensures f == 0 ==> pmm.Used() == old(pmm.Used())
      ensures f != 0 ==> pmm.Used() == old(pmm.Used()) + {f, g} && f !in old(pmm.Used()) && g !in old(pmm.Used())
      ensures f != 0 ==> g != 0 && f != g && f < MAX_FRAMES && g < MAX_FRAMES
    {
      g := 0;
      f := AllocFrame();
      if f == 0 { return; }
      g := AllocFrame();
      if g == 0 {
        FreeFrame(f);
        assert pmm.Used() == old(pmm.Used());
        return 0, 0;
      }
      assert pmm.Used() == old(pmm.Used()) + {f, g};
    }

    /** A new space shares the kernel's first gigabyte and owns two fresh tables. */
    method CreateAddressSpace(kernel: nat) returns (root: nat)
      requires Valid() && Space(kernel) && !EntryAt(mem, kernel, KERNEL).user
      modifies this`mem, pmm, pmm.bitmap
      ensures Valid() && Space(kernel)
      ensures root == 0 <==> !old(EntryAt(mem, kernel, Child(Root, 0))).present || old(pmm.freeCount) < 2
      ensures root == 0 ==> mem == old(mem) && pmm.Used() == old(pmm.Used())
      ensures pmm.freeCount == old(pmm.freeCount) - if root == 0 then 0 else 2
      ensures root != 0 ==>
        && Space(root) && (forall p {:trigger AgreeAt(old(mem), mem, kernel, p)} :: AgreeAt(old(mem), mem, kernel, p))
        && (forall p {:trigger TableAt(mem, kernel, p)} :: TableAt(mem, kernel, p) == old(TableAt(mem, kernel, p)))
        && (forall t {:trigger PrivateTable(mem, root, t)} | PrivateTable(mem, root, t) :: t !in old(pmm.Used()))
        && EntryAt(mem, root, KERNEL) == old(EntryAt(mem, kernel, KERNEL))
        && (forall p {:trigger EntryAt(mem, root, p)} | Private(p) && p != Child(Root, 0) ::
             EntryAt(mem, root, p) == ZERO)
        && old(pmm.Used()) <= pmm.Used()
        && forall f {:trigger Owns(mem, root, f)} :: Owns(mem, root, f) <==> f in pmm.Used() - old(pmm.Used())
    {
      assert TableOk(mem, kernel, Root) && TableOk(mem, kernel, Child(Root, 0));
      if !mem[kernel][0].present { return 0; }
      var kernelPdpt := mem[kernel][0].frame;
      var shared := mem[kernelPdpt][0];
      var pml4, pdpt := AllocTwo();
      if pml4 == 0 { return 0; }
      ghost var before := mem;
      mem := mem[pml4 := ZeroTable()][pdpt := ZeroTable()];
      mem := mem[pdpt := mem[pdpt][0 := shared]];
      mem := mem[pml4 := mem[pml4][0 := TableEntry(pdpt, Flags(true, false, false, false, false))]];
      assert mem == SpaceAdded(before, shared, pml4, pdpt);
      NewSpace(before, kernel, shared, pml4, pdpt);
      KernelKept(before, kernel, shared, pml4, pdpt);
      return pml4;
    }

    /** The innermost loop of destroy_address_space: the owned pages of one page table. */
    method FreePages(pt: nat, ghost root: nat, ghost q: Path)
      requires Valid() && Tree(mem, root) && OwnedNonzero(mem, root) && Depth(q) == 3 && Private(q)
               && TableAt(mem, root, q) == pt
      modifies pmm, pmm.bitmap
      ensures Valid() && Less(old(pmm.Used()), pmm.Used(), mem, root, q, 0, ENTRIES)
    {
      assert TableOk(mem, root, q);
      var i := 0;
      while i < ENTRIES
        invariant i <= ENTRIES && Valid() && Less(old(pmm.Used()), pmm.Used(), mem, root, q, 0, i)
      {
        ghost var p, was := Child(q, i), pmm.Used();
        LeafOwned(mem, root, p);
        if mem[pt][i].present && mem[pt][i].owned {
          assert OwnsAt(mem, root, mem[pt][i].frame, p);
          FreeFrame(mem[pt][i].frame);
        }
        i := i + 1;
        assert Less(old(pmm.Used()), pmm.Used(), mem, root, q, 0, i);
      }
    }

    /** The middle loop: the page tables of one page directory. */
    method FreeTables(pd: nat, ghost root: nat, ghost q: Path)
      requires Valid() && Tree(mem, root) && OwnedNonzero(mem, root) && Depth(q) == 2 && Private(q)
               && TableAt(mem, root, q) == pd
      modifies pmm, pmm.bitmap
      ensures Valid() && Less(old(pmm.Used()), pmm.Used(), mem, root, q, 0, ENTRIES)
    {
      assert TableOk(mem, root, q);
      var i := 0;
      while i < ENTRIES
        invariant i <= ENTRIES && Valid() && Less(old(pmm.Used()), pmm.Used(), mem, root, q, 0, i)
      {
        ghost var r, mid := Child(q, i), pmm.Used();
        PrivateDown(q, i);
        if mem[pd][i].present && !mem[pd][i].huge {
          assert OwnsAt(mem, root, mem[pd][i].frame, r);
          FreePages(mem[pd][i].frame, root, r);
          ghost var after := pmm.Used();
          FreeFrame(mem[pd][i].frame);
          LessStep(old(pmm.Used()), mid, after, pmm.Used(), mem, root, q, 0, i);
        } else {
          LessStep(old(pmm.Used()), mid, mid, mid, mem, root, q, 0, i);
        }
        i := i + 1;
      }
    }

    /** The outer loop: all directories of the space but the shared first. */
    method FreeDirectories(pdpt: nat, ghost root: nat)
      requires Valid() && Tree(mem, root) && OwnedNonzero(mem, root) && TableAt(mem, root, Child(Root, 0)) == pdpt
      modifies pmm, pmm.bitmap
      ensures Valid() && Less(old(pmm.Used()), pmm.Used(), mem, root, Child(Root, 0), 1, ENTRIES)
    {
      ghost var q := Child(Root, 0);
      assert TableOk(mem, root, q);
      var i := 1;
      while i < ENTRIES
        invariant 1 <= i <= ENTRIES && Valid() && Less(old(pmm.Used()), pmm.Used(), mem, root, q, 1, i)
      {
        ghost var r, mid := Child(q, i), pmm.Used();
        assert Depth(r) == 2 && Private(r);
        if mem[pdpt][i].present && !mem[pdpt][i].huge {
          assert OwnsAt(mem, root, mem[pdpt][i].frame, r);
          FreeTables(mem[pdpt][i].frame, root, r);
          ghost var after := pmm.Used();
          FreeFrame(mem[pdpt][i].frame);
          LessStep(old(pmm.Used()), mid, after, pmm.Used(), mem, root, q, 1, i);
        } else {
          LessStep(old(pmm.Used()), mid, mid, mid, mem, root, q, 1, i);
        }
        i := i + 1;
      }
    }

    /** Everything the space answers for through PML4 slot 0 is freed, and nothing else. */
    method DestroyAddressSpace(root: nat)
      requires Valid() && Space(root) && OwnedNonzero(mem, root)
      modifies pmm, pmm.bitmap
      ensures Valid()
      ensures forall f {:trigger f in pmm.Used()} ::
                f in pmm.Used() <==> f in old(pmm.Used()) && f != root && !OwnedIn(mem, root, f, Child(Root, 0))
    {
      ghost var q := Child(Root, 0);
      assert TableOk(mem, root, Root) && TableOk(mem, root, q) && TableAt(mem, root, Root) != 0;
      if !mem[root][0].present {
        FreeFrame(root);
        forall f: nat ensures !OwnedIn(mem, root, f, q) { OwnsNothing(mem, root, f, q); }
        return;
      }
      var pdpt := mem[root][0].frame;
      assert TableAt(mem, root, q) == pdpt;
      FreeDirectories(pdpt, root);
      FreeFrame(pdpt);
      FreeFrame(root);
      forall f: nat
        ensures OwnedIn(mem, root, f, q) <==> f == pdpt || OwnedRange(mem, root, f, q, 1, ENTRIES)
      {
        OwnedSplit(mem, root, f, q);
        KernelNotOwned(mem, root, f);
      }
    }

    // ----- unmap

    method IsTableEmpty(t: nat) returns (empty: bool)
      requires IsTable(mem, t)
      ensures empty <==> IsEmpty(mem[t])
    {
      var i := 0;
      while i < ENTRIES
        invariant i <= ENTRIES && forall j | 0 <= j < i :: !mem[t][j].present
      {
        if mem[t][i].present { return false; }
        i := i + 1;
      }
      return true;
    }

    /** An empty table is unhooked and its frame freed. */
    method DropIfEmpty(t: nat, up: nat, i: nat, ghost root: nat, ghost q: Path) returns (dropped: bool)
      requires Valid() && Space(root) && q.Child? && q.index == i < ENTRIES && Depth(q) <= 3
      requires TableAt(mem, root, q) == t && TableAt(mem, root, q.up) == up
      modifies this`mem, pmm, pmm.bitmap
      ensures Valid() && Space(root) && WalksKept(old(mem), mem, root)
      ensures Dropped(old(mem), mem, root, q, dropped)
      ensures pmm.Used() == old(pmm.Used()) - (if dropped then {t} else {})
    {
      assert TableOk(mem, root, q) && TableOk(mem, root, q.up) && TableAt(mem, root, q) != 0;
      dropped := IsTableEmpty(t);
      if dropped {
        DropStep(mem, root, q);
        forall p ensures p != q ==> TableAt(mem, root, p) != t { assert SamePath(mem, root, q, p); }
        mem := mem[up := mem[up][i := ZERO]];
        FreeFrame(t);
      } else {
        forall p ensures AgreeAt(old(mem), mem, root, p) {}
      }
      EmptyEntries(old(mem), root, q);
    }

    /** unmap_page after the address has been taken apart. */
    method UnmapAt(root: nat, a: nat, b: nat, c: nat, d: nat) returns (ok: bool)
      requires Valid() && Space(root) && a < ENTRIES && b < ENTRIES && c < ENTRIES && d < ENTRIES
      modifies this`mem, pmm, pmm.bitmap
      ensures Valid() && Space(root)
      ensures ok <==> old(EntryAt(mem, root, PagePath(a, b, c, d))).present
      ensures !ok ==> mem == old(mem) && pmm.Used() == old(pmm.Used())
      ensures ok ==> Unmapped(old(mem), mem, root, PagePath(a, b, c, d))
      ensures ok ==> pmm.Used() == old(pmm.Used()) - Gained(mem, old(mem), root, PagePath(a, b, c, d).up)
    {
      ghost var p := PagePath(a, b, c, d);
      ghost var q3, q2, q1 := p.up, p.up.up, p.up.up.up;
      PathDepths(p);
      assert TableOk(mem, root, Root) && TableOk(mem, root, q1) && TableOk(mem, root, q2) && TableOk(mem, root, q3);
      if !mem[root][a].present { return false; }
      var pdpt := mem[root][a].frame;
      if !mem[pdpt][b].present || mem[pdpt][b].huge { return false; }
      var pd := mem[pdpt][b].frame;
      if !mem[pd][c].present || mem[pd][c].huge { return false; }
      var pt := mem[pd][c].frame;
      if !mem[pt][d].present { return false; }
      ghost var m0 := mem;
      ClearPage(mem, root, p);
      mem := mem[pt := mem[pt][d := ZERO]];
      DropTables(root, a, b, c, pdpt, pd, pt, m0, p);
      return true;
    }

    /** protect_page after the address has been taken apart. */
    method ProtectAt(root: nat, a: nat, b: nat, c: nat, d: nat, flags: Flags) returns (ok: bool)
      requires Valid() && Space(root) && a < ENTRIES && b < ENTRIES && c < ENTRIES && d < ENTRIES
      modifies this`mem
      ensures ok <==> old(EntryAt(mem, root, PagePath(a, b, c, d))).present
      ensures !ok ==> mem == old(mem)
      ensures ok ==> Protected(old(mem), mem, root, PagePath(a, b, c, d), flags)
      ensures ok ==> forall q {:trigger TableAt(mem, root, q)} :: TableAt(mem, root, q) == TableAt(old(mem), root, q)
    {
      ghost var p := PagePath(a, b, c, d);
      PathDepths(p);
      assert TableOk(mem, root, Root) && TableOk(mem, root, p.up.up.up) && TableOk(mem, root, p.up.up)
          && TableOk(mem, root, p.up);
      if !mem[root][a].present { return false; }
      var pdpt := mem[root][a].frame;
      if !mem[pdpt][b].present || mem[pdpt][b].huge { return false; }
      var pd := mem[pdpt][b].frame;
      if !mem[pd][c].present || mem[pd][c].huge { return false; }
      var pt := mem[pd][c].frame;
      if !mem[pt][d].present { return false; }
      ProtectLeaf(mem, root, p, flags);
      mem := mem[pt := mem[pt][d := PageEntry(mem[pt][d].frame, flags)]];
      return true;
    }

    /** A mapped 4 KiB page gets new flags, all of them: its frame and every other translation
        stay, and the rights invariant does if user access is asked for only below user tables. */
    method ProtectPage(root: nat, virtAddr: nat, flags: Flags) returns (ok: bool)
      requires Valid() && Space(root)
      modifies this`mem
      ensures Valid()
      ensures ok <==> virtAddr % FRAME_SIZE == 0 && old(EntryAt(mem, root, PathOf(virtAddr))).present
      ensures !ok ==> mem == old(mem)
      ensures ok ==> Protected(old(mem), mem, root, PathOf(virtAddr), flags)
      ensures ok && (flags.user ==> old(EntryAt(mem, root, PathOf(virtAddr).up)).user) ==> Space(root)
    {
      if virtAddr % FRAME_SIZE != 0 { return false; }
      ok := ProtectAt(root, virtAddr / TWO_39 % ENTRIES, virtAddr / TWO_30 % ENTRIES, virtAddr / TWO_21 % ENTRIES,
                      virtAddr / FRAME_SIZE % ENTRIES, flags);
    }

    /** The tables above a page that has just been cleared, from the lowest up. */
    method DropTables(root: nat, a: nat, b: nat, c: nat, pdpt: nat, pd: nat, pt: nat, ghost m0: Memory, ghost p: Path)
      requires Valid() && Space(root) && FourDeep(p) && p.index < ENTRIES
      requires a < ENTRIES && b < ENTRIES && c < ENTRIES && p.up == Child(Child(Child(Root, a), b), c)
      requires TableAt(mem, root, p.up) == pt && TableAt(mem, root, p.up.up) == pd
               && TableAt(mem, root, p.up.up.up) == pdpt
      requires forall q {:trigger TableAt(mem, root, q)} :: TableAt(mem, root, q) == TableAt(m0, root, q)
      requires AgreeOff(m0, mem, root, p) && EntryAt(mem, root, p) == ZERO
      requires WalkTo(mem, root, p) == Fault && OthersKept(m0, mem, root, p)
      modifies this`mem, pmm, pmm.bitmap
      ensures Valid() && Space(root) && Unmapped(m0, mem, root, p)
      ensures pmm.Used() == old(pmm.Used()) - Gained(mem, m0, root, p.up)
    {
      ghost var m1 := mem;
      PathDepths(p);
      var d3, d2, d1, m2, m3 := DropChain(root, a, b, c, pdpt, pd, pt, p.up);
      UnmapChain(m0, m1, m2, m3, mem, root, p, d3, d2, d1);
      UnmapFrees(m0, m1, m2, m3, mem, root, p, d3, d2, d1);
    }

    method DropChain(root: nat, a: nat, b: nat, c: nat, pdpt: nat, pd: nat, pt: nat, ghost q3: Path)
      returns (d3: bool, d2: bool, d1: bool, ghost m2: Memory, ghost m3: Memory)
      requires Valid() && Space(root) && a < ENTRIES && b < ENTRIES && c < ENTRIES
               && q3 == Child(Child(Child(Root, a), b), c)
      requires Depth(q3) == 3 && Depth(q3.up) == 2 && Depth(q3.up.up) == 1
      requires TableAt(mem, root, q3) == pt && TableAt(mem, root, q3.up) == pd && TableAt(mem, root, q3.up.up) == pdpt
      modifies this`mem, pmm, pmm.bitmap
      ensures Valid() && Space(root) && Dropped(old(mem), m2, root, q3, d3)
      ensures if d3 then Dropped(m2, m3, root, q3.up, d2) else m3 == m2 && !d2
      ensures if d2 then Dropped(m3, mem, root, q3.up.up, d1) else mem == m3 && !d1
      ensures pmm.Used() == old(pmm.Used()) - Freed(d3, pt, d2, pd, d1, pdpt)
    {
      ghost var m1 := mem;
      d3 := DropIfEmpty(pt, pd, c, root, q3);
      m2, m3, d2, d1 := mem, mem, false, false;
      if d3 {
        AgreeTable(m1, m2, root, q3, q3.up);
        AgreeTable(m1, m2, root, q3, q3.up.up);
        d2, d1, m3 := DropUpper(root, a, b, pdpt, pd, q3.up);
      }
    }

    method DropUpper(root: nat, a: nat, b: nat, pdpt: nat, pd: nat, ghost q2: Path)
      returns (d2: bool, d1: bool, ghost m3: Memory)
      requires Valid() && Space(root) && a < ENTRIES && b < ENTRIES && q2 == Child(Child(Root, a), b)
      requires Depth(q2) == 2 && Depth(q2.up) == 1
      requires TableAt(mem, root, q2) == pd && TableAt(mem, root, q2.up) == pdpt
      modifies this`mem, pmm, pmm.bitmap
      ensures Valid() && Space(root) && Dropped(old(mem), m3, root, q2, d2)
      ensures if d2 then Dropped(m3, mem, root, q2.up, d1) else mem == m3 && !d1
      ensures pmm.Used() == old(pmm.Used()) - (if d2 then {pd} else {}) - (if d1 then {pdpt} else {})
    {
      ghost var m2 := mem;
      d2 := DropIfEmpty(pd, pdpt, b, root, q2);
      m3 := mem;
      d1 := false;
      if d2 {
        AgreeTable(m2, m3, root, q2, q2.up);
        d1 := DropIfEmpty(pdpt, root, a, root, q2.up);
      }
    }

    /** unmap_page, on a page at or above 1 GiB or not: it succeeds exactly on a mapped 4 KiB
        page, makes it fault, and frees exactly the tables left empty. */
    method UnmapPage(root: nat, virtAddr: nat) returns (ok: bool)
      requires Valid() && Space(root)
      modifies this`mem, pmm, pmm.bitmap
      ensures Valid() && Space(root)
      ensures ok <==> virtAddr % FRAME_SIZE == 0 && old(EntryAt(mem, root, PathOf(virtAddr))).present
      ensures !ok ==> mem == old(mem) && pmm.Used() == old(pmm.Used())
      ensures ok ==> Unmapped(old(mem), mem, root, PathOf(virtAddr))
      ensures ok ==> pmm.Used() == old(pmm.Used()) - Gained(mem, old(mem), root, PathOf(virtAddr).up)
    {
      if virtAddr % FRAME_SIZE != 0 { return false; }
      ok := UnmapAt(root, virtAddr / TWO_39 % ENTRIES, virtAddr / TWO_30 % ENTRIES, virtAddr / TWO_21 % ENTRIES,
                    virtAddr / FRAME_SIZE % ENTRIES);
    }
  }

  /** A table is dropped exactly when it is empty. */
  ghost predicate Dropped(mem: Memory, mem': Memory, root: nat, q: Path, dropped: bool)
    requires q.Child?
  {
    && WalksKept(mem, mem', root) && AgreeOff(mem, mem', root, q)
    && (dropped <==> forall j: nat | j < ENTRIES :: EntryAt(mem, root, Child(q, j)) == ZERO)
    && (if dropped then EntryAt(mem', root, q) == ZERO else mem' == mem)
  }

  lemma {:induction false} EmptyEntries(mem: Memory, root: nat, q: Path)
    requires IsTable(mem, TableAt(mem, root, q))
    ensures IsEmpty(mem[TableAt(mem, root, q)]) <==> forall j: nat | j < ENTRIES ::
            EntryAt(mem, root, Child(q, j)) == ZERO
  {
    var t := mem[TableAt(mem, root, q)];
    forall j: nat | j < ENTRIES ensures !t[j].present <==> EntryAt(mem, root, Child(q, j)) == ZERO {}
  }

  /** A path of depth 4, spelled out. */
  predicate FourDeep(p: Path) {
    p.Child? && p.up.Child? && p.up.up.Child? && p.up.up.up.Child? && p.up.up.up.up == Root
  }

  lemma {:induction false} PathDepths(p: Path)
    requires FourDeep(p)
    ensures Depth(p) == 4 && Depth(p.up) == 3 && Depth(p.up.up) == 2 && Depth(p.up.up.up) == 1
    ensures Within(p, p.up) && Within(p, p.up.up) && Within(p, p.up.up.up)
    ensures forall q: Path | q.Child? && Within(p, q) :: q == p || q == p.up || q == p.up.up || q == p.up.up.up
  {
    var q3, q2, q1 := p.up, p.up.up, p.up.up.up;
    assert Depth(q1) == 1;
    assert Depth(q2) == 2;
    assert Depth(q3) == 3;
    assert Within(q2, q1) && Within(q3, q2);
    assert Within(q3, q1);
    forall q: Path | q.Child? && Within(p, q) ensures q == p || q == q3 || q == q2 || q == q1 {
      if q != p && q != q3 && q != q2 {
        assert Within(q3, q);
        assert Within(q2, q);
        assert Within(q1, q);
        assert q != q1 ==> Within(Root, q);
      }
    }
  }

  /** The state of one unmapping: the page's entry cleared, then up to three tables dropped. */
  ghost predicate UnmapSteps(m0: Memory, m1: Memory, m2: Memory, m3: Memory, m4: Memory, root: nat, p: Path,
                             d3: bool, d2: bool, d1: bool)
  {
    && FourDeep(p) && p.index < ENTRIES
    && AgreeOff(m0, m1, root, p) && EntryAt(m1, root, p) == ZERO && WalkTo(m1, root, p) == Fault
    && OthersKept(m0, m1, root, p)
    && TableAt(m0, root, p.up) >= 0 && TableAt(m0, root, p.up.up) >= 0 && TableAt(m0, root, p.up.up.up) >= 0
    && Dropped(m1, m2, root, p.up, d3)
    && (if d3 then Dropped(m2, m3, root, p.up.up, d2) else m3 == m2 && !d2)
    && (if d2 then Dropped(m3, m4, root, p.up.up.up, d1) else m4 == m3 && !d1)
  }

  lemma {:induction false} UnmapElsewhere(m0: Memory, m1: Memory, m2: Memory, m3: Memory, m4: Memory, root: nat,
                                          p: Path,
                                          d3: bool, d2: bool, d1: bool, r: Path)
    requires UnmapSteps(m0, m1, m2, m3, m4, root, p, d3, d2, d1)
    ensures !Within(p, r) ==> AgreeAt(m0, m1, root, r) && AgreeAt(m0, m2, root, r) && AgreeAt(m0, m3, root, r)
                              && AgreeAt(m0, m4, root, r)
    ensures EntryAt(m4, root, p) == ZERO
    ensures EntryAt(m2, root, p.up.up) == EntryAt(m0, root, p.up.up)
            && EntryAt(m3, root, p.up.up.up) == EntryAt(m0, root, p.up.up.up)
    ensures if d3 then EntryAt(m4, root, p.up) == ZERO else EntryAt(m4, root, p.up) == EntryAt(m0, root, p.up)
    ensures if d2 then EntryAt(m4, root, p.up.up) == ZERO else EntryAt(m4, root, p.up.up) == EntryAt(m0, root, p.up.up)
    ensures if d1 then EntryAt(m4, root, p.up.up.up) == ZERO
            else EntryAt(m4, root, p.up.up.up) == EntryAt(m0, root, p.up.up.up)
    ensures d3 ==> EntryAt(m2, root, p.up) == ZERO
    ensures d2 ==> EntryAt(m3, root, p.up.up) == ZERO
  {
    PathDepths(p);
    var q3, q2, q1 := p.up, p.up.up, p.up.up.up;
    assert AgreeAt(m0, m1, root, q3) && AgreeAt(m0, m1, root, q2) && AgreeAt(m0, m1, root, q1);
    assert AgreeAt(m1, m2, root, p) && AgreeAt(m1, m2, root, q2) && AgreeAt(m1, m2, root, q1);
    assert m2 == m3 || (AgreeAt(m2, m3, root, p) && AgreeAt(m2, m3, root, q3) && AgreeAt(m2, m3, root, q1));
    assert m3 == m4 || (AgreeAt(m3, m4, root, p) && AgreeAt(m3, m4, root, q3) && AgreeAt(m3, m4, root, q2));
    if !Within(p, r) {
      assert AgreeAt(m0, m1, root, r) && AgreeAt(m1, m2, root, r);
      assert m2 == m3 || AgreeAt(m2, m3, root, r);
      assert m3 == m4 || AgreeAt(m3, m4, root, r);
    }
  }

  /** The tables given back. */
  function Freed(d3: bool, pt: nat, d2: bool, pd: nat, d1: bool, pdpt: nat): set<nat> {
    (if d3 then {pt} else {}) + (if d2 then {pd} else {}) + (if d1 then {pdpt} else {})
  }

  /** From the cleared page up: each table goes exactly when nothing else is left in it. */
  lemma {:induction false} UnmapChain(m0: Memory, m1: Memory, m2: Memory, m3: Memory, m4: Memory, root: nat, p: Path,
                                      d3: bool, d2: bool, d1: bool)
    requires UnmapSteps(m0, m1, m2, m3, m4, root, p, d3, d2, d1)
    ensures Unmapped(m0, m4, root, p)
  {
    PathDepths(p);
    forall r ensures !Within(p, r) ==> AgreeAt(m0, m4, root, r) {
      UnmapElsewhere(m0, m1, m2, m3, m4, root, p, d3, d2, d1, r);
    }
    UnmapElsewhere(m0, m1, m2, m3, m4, root, p, d3, d2, d1, p);
    forall r | Depth(r) == 4 && r != p ensures WalkTo(m4, root, r) == WalkTo(m0, root, r) {
      assert WalkTo(m2, root, r) == WalkTo(m1, root, r) && WalkTo(m3, root, r) == WalkTo(m2, root, r);
    }
    assert WalkTo(m4, root, p) == WalkTo(m3, root, p) == WalkTo(m2, root, p) == WalkTo(m1, root, p);
    UnmapVanish(m0, m1, m2, m3, m4, root, p, d3, d2, d1);
  }

  lemma {:induction false} UnmapFrees(m0: Memory, m1: Memory, m2: Memory, m3: Memory, m4: Memory, root: nat, p: Path,
                                      d3: bool, d2: bool, d1: bool)
    requires UnmapSteps(m0, m1, m2, m3, m4, root, p, d3, d2, d1) && Unmapped(m0, m4, root, p)
    ensures Gained(m4, m0, root, p.up)
         == Freed(d3, TableAt(m0, root, p.up), d2, TableAt(m0, root, p.up.up), d1, TableAt(m0, root, p.up.up.up))
  {
    PathDepths(p);
    var q3, q2, q1 := p.up, p.up.up, p.up.up.up;
    UnmapVanish(m0, m1, m2, m3, m4, root, p, d3, d2, d1);
    assert Gained(m4, m0, root, Root) == {};
    assert Gained(m4, m0, root, q1) == if d1 then {TableAt(m0, root, q1) as nat} else {};
    assert Gained(m4, m0, root, q2) == Gained(m4, m0, root, q1) + if d2 then {TableAt(m0, root, q2) as nat} else {};
  }

  lemma {:induction false} UnmapVanish(m0: Memory, m1: Memory, m2: Memory, m3: Memory, m4: Memory, root: nat, p: Path,
                                       d3: bool, d2: bool, d1: bool)
    requires UnmapSteps(m0, m1, m2, m3, m4, root, p, d3, d2, d1)
    ensures d3 <==> Vanishes(m0, root, p, p.up)
    ensures d2 <==> Vanishes(m0, root, p, p.up.up)
    ensures d1 <==> Vanishes(m0, root, p, p.up.up.up)
  {
    PathDepths(p);
    var q3, q2, q1 := p.up, p.up.up, p.up.up.up;
    forall j: nat ensures j != p.index ==> AgreeAt(m0, m1, root, Child(q3, j)) {
      assert j != p.index ==> Child(q3, j) != p;
    }
    OnlyThis(m0, m1, root, p);
    assert Vanishes(m0, root, q2, q1) <==> Alone(m0, root, q2);
    assert Vanishes(m0, root, q3, q1) <==> Alone(m0, root, q3) && Alone(m0, root, q2);
    assert Vanishes(m0, root, q3, q2) <==> Alone(m0, root, q3);
    if d3 {
      UnmapElsewhere(m0, m1, m2, m3, m4, root, p, d3, d2, d1, p);
      forall j: nat ensures j != q3.index ==> AgreeAt(m0, m2, root, Child(q2, j)) {
        UnmapElsewhere(m0, m1, m2, m3, m4, root, p, d3, d2, d1, Child(q2, j));
      }
      OnlyThis(m0, m2, root, q3);
      if d2 {
        forall j: nat ensures j != q2.index ==> AgreeAt(m0, m3, root, Child(q1, j)) {
          UnmapElsewhere(m0, m1, m2, m3, m4, root, p, d3, d2, d1, Child(q1, j));
        }
        OnlyThis(m0, m3, root, q2);
      }
    }
  }

  /** With the entry at `q` cleared, its table is empty exactly when it held nothing else. */
  lemma {:induction false} OnlyThis(mem: Memory, mem': Memory, root: nat, q: Path)
    requires q.Child? && q.index < ENTRIES && EntryAt(mem', root, q) == ZERO
    requires forall j: nat | j != q.index :: AgreeAt(mem, mem', root, Child(q.up, j))
    ensures (forall j: nat | j < ENTRIES :: EntryAt(mem', root, Child(q.up, j)) == ZERO)
       <==> Alone(mem, root, q)
  {
    assert q == Child(q.up, q.index);
    forall j: nat | j != q.index ensures EntryAt(mem', root, Child(q.up, j)) == EntryAt(mem, root, Child(q.up, j)) {
      assert AgreeAt(mem, mem', root, Child(q.up, j));
    }
  }

  lemma {:induction false} PrivateDown(q: Path, i: nat)
    requires Private(q) && Depth(q) >= 2
    ensures Private(Child(q, i))
  {
    assert Depth(Child(Root, 0)) == 1 && Depth(KERNEL) == 2;
  }

  lemma {:induction false} KernelNotOwned(mem: Memory, root: nat, f: nat)
    ensures !OwnedIn(mem, root, f, KERNEL)
  {
  }

  /** Some frame answered for at `q` or below it. */
  ghost predicate OwnedIn(mem: Memory, root: nat, f: nat, q: Path) {
    exists p :: OwnsAt(mem, root, f, p) && Within(p, q)
  }

  ghost predicate OwnedRange(mem: Memory, root: nat, f: nat, q: Path, lo: nat, hi: nat) {
    exists i :: lo <= i < hi && OwnedIn(mem, root, f, Child(q, i))
  }

  /** Frame 0 is never handed out, so no entry the space answers for names it. */
  ghost predicate OwnedNonzero(mem: Memory, root: nat) {
    forall p {:trigger EntryAt(mem, root, p)} | Private(p) :: !OwnsAt(mem, root, 0, p)
  }

  /** `used'` is `used` without the frames answered for in entries lo to hi of the table at
      `q` and below them. */
  ghost predicate Less(used: set<nat>, used': set<nat>, mem: Memory, root: nat, q: Path, lo: nat, hi: nat) {
    forall f {:trigger f in used'} :: f in used' <==> f in used && !OwnedRange(mem, root, f, q, lo, hi)
  }

  lemma {:induction false} WithinChild(p: Path, q: Path) returns (i: nat)
    requires Within(p, q) && p != q
    ensures Within(p, Child(q, i))
  {
    if p.up == q { i := p.index; } else { i := WithinChild(p.up, q); }
  }

  /** What is answered for in a subtree: its top entry, and what its table's entries hold. */
  lemma {:induction false} OwnedSplit(mem: Memory, root: nat, f: nat, q: Path)
    requires q.Child?
    ensures OwnedIn(mem, root, f, q) <==> OwnsAt(mem, root, f, q) || OwnedRange(mem, root, f, q, 0, ENTRIES)
  {
    if OwnsAt(mem, root, f, q) { assert Within(q, q); }
    if p :| OwnsAt(mem, root, f, p) && Within(p, q) {
      if p != q {
        var i := WithinChild(p, q);
        if i >= ENTRIES && p != Child(q, i) { BelowLeaf(mem, root, p, Child(q, i)); }
        assert OwnedIn(mem, root, f, Child(q, i));
      }
    }
    if i :| 0 <= i < ENTRIES && OwnedIn(mem, root, f, Child(q, i)) {
      var p :| OwnsAt(mem, root, f, p) && Within(p, Child(q, i));
      WithinTransitive(p, Child(q, i), q);
    }
  }

  lemma {:induction false} WithinTransitive(p: Path, q: Path, r: Path)
    requires Within(p, q) && Within(q, r)
    ensures Within(p, r)
  {
    if p != q { WithinTransitive(p.up, q, r); }
  }

  /** An entry that leads to no table answers for nothing, unless it is a page. */
  lemma {:induction false} OwnsNothing(mem: Memory, root: nat, f: nat, q: Path)
    requires q.Child? && Depth(q) <= 3 && !Points(EntryAt(mem, root, q), Depth(q))
    ensures !OwnedIn(mem, root, f, q)
  {
    if p :| OwnsAt(mem, root, f, p) && Within(p, q) {
      if p != q { BelowLeaf(mem, root, p, q); }
    }
  }

  /** Freeing what the table at `q` holds, entry by entry, and then its own frame. */
  lemma {:induction false} LessStep(used: set<nat>, mid: set<nat>, after: set<nat>, used': set<nat>,
                                    mem: Memory, root: nat, q: Path, lo: nat, i: nat)
    requires Less(used, mid, mem, root, q, lo, i) && lo <= i
    requires var r := Child(q, i);
             if Depth(r) <= 3 && Points(EntryAt(mem, root, r), Depth(r))
             then Private(r) && Less(mid, after, mem, root, r, 0, ENTRIES)
                 && used' == after - {EntryAt(mem, root, r).frame}
             else Depth(r) <= 3 && used' == mid
    ensures Less(used, used', mem, root, q, lo, i + 1)
  {
    var r := Child(q, i);
    forall f ensures f in used' <==> f in used && !OwnedRange(mem, root, f, q, lo, i + 1) {
      if Points(EntryAt(mem, root, r), Depth(r)) {
        OwnedSplit(mem, root, f, r);
      } else {
        OwnsNothing(mem, root, f, r);
      }
      assert OwnedRange(mem, root, f, q, lo, i + 1) <==> OwnedRange(mem, root, f, q, lo, i) || OwnedIn(mem, root, f, r);
    }
  }

  lemma {:induction false} LeafOwned(mem: Memory, root: nat, p: Path)
    requires Depth(p) == 4 && Private(p)
    ensures forall f {:trigger OwnedIn(mem, root, f, p)} ::
              OwnedIn(mem, root, f, p) <==> EntryAt(mem, root, p).present && EntryAt(mem, root, p).owned
                                            && EntryAt(mem, root, p).frame == f
  {
    forall f
      ensures OwnedIn(mem, root, f, p) <==> OwnsAt(mem, root, f, p)
    {
      if q :| OwnsAt(mem, root, f, q) && Within(q, p) {
        if q != p { BelowLeaf(mem, root, q, p); }
      }
      assert Within(p, p);
    }
  }

  /** Nothing lies below an entry that leads nowhere. */
  lemma {:induction false} BelowLeaf(mem: Memory, root: nat, p: Path, q: Path)
    requires Within(p, q) && p != q && TableAt(mem, root, q) < 0
    ensures EntryAt(mem, root, p) == ZERO && TableAt(mem, root, p) < 0
  {
    if p.up != q { BelowLeaf(mem, root, p.up, q); }
  }

  /** The memory after create_address_space. */
  function SpaceAdded(mem: Memory, shared: Entry, pml4: nat, pdpt: nat): Memory {
    mem[pdpt := ZeroTable()[0 := shared]]
       [pml4 := ZeroTable()[0 := TableEntry(pdpt, Flags(true, false, false, false, false))]]
  }

  /** `shared` is the kernel's PDPT entry as it stands in memory. */
  predicate IsShared(mem: Memory, kernel: nat, shared: Entry) {
    EntryAt(mem, kernel, KERNEL) == if shared.present then shared else ZERO
  }

  ghost predicate Fresh(mem: Memory, kernel: nat, pml4: nat, pdpt: nat) {
    pml4 != pdpt && OutsideTree(mem, kernel, pml4) && OutsideTree(mem, kernel, pdpt)
  }

  /** The new space and the kernel agree below the shared entry; elsewhere the new space has
      only its PML4 and PDPT. */
  lemma {:induction false} KernelShared(mem: Memory, kernel: nat, shared: Entry, pml4: nat, pdpt: nat, p: Path)
    requires Tree(mem, kernel) && Fresh(mem, kernel, pml4, pdpt) && IsShared(mem, kernel, shared)
    requires Points(EntryAt(mem, kernel, Child(Root, 0)), 1)
    ensures var mem' := SpaceAdded(mem, shared, pml4, pdpt);
            && (Within(p, KERNEL) ==> TableAt(mem', pml4, p) == TableAt(mem, kernel, p)
                                      && EntryAt(mem', pml4, p) == EntryAt(mem, kernel, p))
            && (!Within(p, KERNEL) ==> TableAt(mem', pml4, p) == (if p == Root then pml4
                                         else if p == Child(Root, 0) then pdpt else -1))
            && (Private(p) && p != Child(Root, 0) ==> EntryAt(mem', pml4, p) == ZERO)
  {
    assert Depth(Child(Root, 0)) == 1;
    if p.Child? {
      KernelShared(mem, kernel, shared, pml4, pdpt, p.up);
      assert TableAt(mem, kernel, p.up) != pml4 && TableAt(mem, kernel, p.up) != pdpt;
    }
  }

  lemma {:induction false} NewSpace(mem: Memory, kernel: nat, shared: Entry, pml4: nat, pdpt: nat)
    requires Tree(mem, kernel) && RightsOk(mem, kernel) && Fresh(mem, kernel, pml4, pdpt)
             && IsShared(mem, kernel, shared)
    requires Points(EntryAt(mem, kernel, Child(Root, 0)), 1) && (shared.present ==> !shared.user)
    ensures var mem' := SpaceAdded(mem, shared, pml4, pdpt);
            && Tree(mem', pml4) && RightsOk(mem', pml4)
            && (forall p {:trigger TableAt(mem', pml4, p)} :: TableAt(mem', pml4, p) >= 0 ==>
                  TableAt(mem', pml4, p) == pml4 || TableAt(mem', pml4, p) == pdpt
                  || TableAt(mem', pml4, p) == TableAt(mem, kernel, p))
            && EntryAt(mem', pml4, KERNEL) == EntryAt(mem, kernel, KERNEL)
            && (forall p {:trigger EntryAt(mem', pml4, p)} | Private(p) && p != Child(Root, 0) ::
                 EntryAt(mem', pml4, p) == ZERO)
            && (forall f {:trigger Owns(mem', pml4, f)} :: Owns(mem', pml4, f) <==> f == pml4 || f == pdpt)
            && forall t {:trigger PrivateTable(mem', pml4, t)} | PrivateTable(mem', pml4, t) :: t == pml4 || t == pdpt
  {
    var mem' := SpaceAdded(mem, shared, pml4, pdpt);
    var slot := Child(Root, 0);
    forall p
      ensures TableOk(mem', pml4, p) && RightAt(mem', pml4, p)
      ensures TableAt(mem', pml4, p) >= 0 ==>
                  TableAt(mem', pml4, p) == pml4 || TableAt(mem', pml4, p) == pdpt
                  || TableAt(mem', pml4, p) == TableAt(mem, kernel, p)
    {
      KernelShared(mem, kernel, shared, pml4, pdpt, p);
      assert TableOk(mem, kernel, p) && RightAt(mem, kernel, p);
      if p.Child? { KernelShared(mem, kernel, shared, pml4, pdpt, p.up); }
    }
    forall p | Private(p) && p != slot ensures EntryAt(mem', pml4, p) == ZERO {
      KernelShared(mem, kernel, shared, pml4, pdpt, p);
    }
    forall p, q ensures SamePath(mem', pml4, p, q) {
      KernelShared(mem, kernel, shared, pml4, pdpt, p);
      KernelShared(mem, kernel, shared, pml4, pdpt, q);
      assert SamePath(mem, kernel, p, q);
      assert TableAt(mem, kernel, p) != pml4 && TableAt(mem, kernel, p) != pdpt;
      assert TableAt(mem, kernel, q) != pml4 && TableAt(mem, kernel, q) != pdpt;
    }
    KernelShared(mem, kernel, shared, pml4, pdpt, KERNEL);
    forall f ensures Owns(mem', pml4, f) <==> f == pml4 || f == pdpt {
      assert OwnsAt(mem', pml4, pdpt, slot);
    }
    forall t | PrivateTable(mem', pml4, t) ensures t == pml4 || t == pdpt {
      var q :| !Within(q, KERNEL) && TableAt(mem', pml4, q) == t;
      KernelShared(mem, kernel, shared, pml4, pdpt, q);
    }
  }

  /** The kernel's own tables are not touched. */
  lemma {:induction false} KernelKept(mem: Memory, kernel: nat, shared: Entry, pml4: nat, pdpt: nat)
    requires Tree(mem, kernel) && RightsOk(mem, kernel) && Fresh(mem, kernel, pml4, pdpt)
    ensures var mem' := SpaceAdded(mem, shared, pml4, pdpt);
            && Tree(mem', kernel) && RightsOk(mem', kernel)
            && (forall p {:trigger AgreeAt(mem, mem', kernel, p)} :: AgreeAt(mem, mem', kernel, p))
            && forall p {:trigger TableAt(mem', kernel, p)} :: TableAt(mem', kernel, p) == TableAt(mem, kernel, p)
  {
    var mid := mem[pdpt := ZeroTable()[0 := shared]];
    var mem' := SpaceAdded(mem, shared, pml4, pdpt);
    ForeignKeepsAll(mem, kernel, pdpt, ZeroTable()[0 := shared]);
    ForeignKeepsAll(mid, kernel, pml4, mem'[pml4]);
    forall p ensures AgreeAt(mem, mem', kernel, p) {
      assert AgreeAt(mem, mid, kernel, p) && AgreeAt(mid, mem', kernel, p);
    }
  }

  /** Writing to a frame outside a tree leaves the whole tree as it is. */
  lemma {:induction false} ForeignKeepsAll(mem: Memory, root: nat, f: nat, table: seq<Entry>)
    requires Tree(mem, root) && RightsOk(mem, root) && OutsideTree(mem, root, f)
    ensures var mem' := mem[f := table];
            && Tree(mem', root) && RightsOk(mem', root)
            && (forall p {:trigger TableAt(mem', root, p)} :: TableAt(mem', root, p) == TableAt(mem, root, p))
            && forall p {:trigger AgreeAt(mem, mem', root, p)} :: AgreeAt(mem, mem', root, p)
  {
    var mem' := mem[f := table];
    forall p
      ensures TableAt(mem', root, p) == TableAt(mem, root, p) && AgreeAt(mem, mem', root, p)
      ensures TableOk(mem', root, p) && RightAt(mem', root, p)
    {
      ForeignFrame(mem, root, f, table, p);
      if p.Child? { ForeignFrame(mem, root, f, table, p.up); }
      assert TableOk(mem, root, p) && RightAt(mem, root, p) && TableAt(mem, root, p) != f;
    }
    forall p, q ensures SamePath(mem', root, p, q) { assert SamePath(mem, root, p, q); }
  }

  lemma {:induction false} SameWalk(mem: Memory, mem': Memory, root: nat, p: Path)
    requires forall q {:trigger AgreeAt(mem, mem', root, q)} :: AgreeAt(mem, mem', root, q)
    ensures WalkTo(mem', root, p) == WalkTo(mem, root, p)
  {
    if p.Child? {
      assert AgreeAt(mem, mem', root, p);
      SameWalk(mem, mem', root, p.up);
    }
  }

  /** The effect on translations: exactly the one page on success, none on failure. */
  ghost predicate Mapped(mem: Memory, mem': Memory, root: nat, p: Path, frame: nat, flags: Flags, ok: bool)
    requires p.Child?
  {
    && (ok ==> EntryAt(mem', root, p) == PageEntry(frame, flags) && WalkTo(mem', root, p) == PageWalk(p, frame, flags))
    && (!ok ==> WalksKept(mem, mem', root) && AgreeAt(mem, mem', root, p))
    && OthersKept(mem, mem', root, p)
    && (forall r | !Within(p, r) :: AgreeAt(mem, mem', root, r))
    && (ok ==> NotLarge(mem, root, p.up))
  }

  /** The effect on what the space answers for: the new tables, and the page if owned. Only the
      frame of a page that was mapped there before can be lost. */
  ghost predicate Grown(mem: Memory, mem': Memory, root: nat, p: Path, frame: nat, flags: Flags, ok: bool,
                        more: set<nat>)
    requires p.Child?
  {
    forall f {:trigger Owns(mem', root, f)} | !(ok && OwnsAt(mem, root, f, p)) ::
      Owns(mem', root, f) <==> Owns(mem, root, f) || f in more || (ok && flags.owned && f == frame)
  }

  /** The page is gone, every other translation is as before, and a table above it is gone
      exactly when nothing else was left in it. */
  ghost predicate Unmapped(mem: Memory, mem': Memory, root: nat, p: Path)
    requires p.Child?
  {
    && EntryAt(mem', root, p) == ZERO && WalkTo(mem', root, p) == Fault && OthersKept(mem, mem', root, p)
    && (forall r | !Within(p, r) :: AgreeAt(mem, mem', root, r))
    && (forall q: Path | q.Child? && Within(p, q) && q != p ::
         TableAt(mem', root, q) < 0 <==> Vanishes(mem, root, p, q))
  }

  /** The table of `p` holds no entry but that of `p`. */
  ghost predicate Alone(mem: Memory, root: nat, p: Path)
    requires p.Child?
  {
    forall j: nat | j != p.index && j < ENTRIES :: EntryAt(mem, root, Child(p.up, j)) == ZERO
  }

  /** On the way from `p` up to `q`, every table holds nothing but the entry below. */
  ghost predicate Vanishes(mem: Memory, root: nat, p: Path, q: Path)
    decreases p
  {
    p.Child? && p != q && Alone(mem, root, p) && (p.up == q || Vanishes(mem, root, p.up, q))
  }

  lemma {:induction false} DropStep(mem: Memory, root: nat, q: Path)
    requires Tree(mem, root) && RightsOk(mem, root) && q.Child? && q.index < ENTRIES && Depth(q) <= 3
    requires IsTable(mem, TableAt(mem, root, q.up))
    requires IsTable(mem, TableAt(mem, root, q)) && IsEmpty(mem[TableAt(mem, root, q)])
    ensures var mem' := Write(mem, TableAt(mem, root, q.up), q.index, ZERO);
            && Tree(mem', root) && RightsOk(mem', root) && WalksKept(mem, mem', root)
            && AgreeOff(mem, mem', root, q) && EntryAt(mem', root, q) == ZERO
            && forall p {:trigger TableAt(mem', root, p)} ::
                 TableAt(mem', root, p) == if p == q then -1 else TableAt(mem, root, p)
  {
    var mem' := Write(mem, TableAt(mem, root, q.up), q.index, ZERO);
    DropTable(mem, root, q);
    TreeKept(mem, mem', root, q);
    forall p ensures TableAt(mem', root, p) == if p == q then -1 else TableAt(mem, root, p) {
      if p != q { AgreeTable(mem, mem', root, q, p); }
    }
    forall p ensures RightAt(mem', root, p) {
      assert RightAt(mem, root, p);
      if p != q { assert AgreeAt(mem, mem', root, p); }
      if p.Child? && p.up != q { assert AgreeAt(mem, mem', root, p.up); }
    }
    forall p ensures p != q ==> AgreeAt(mem', mem, root, p) {
      if p != q { assert AgreeAt(mem, mem', root, p); }
    }
    forall r | Depth(r) == 4 ensures WalkTo(mem', root, r) == WalkTo(mem, root, r) {
      InnerKeepsWalk(mem', mem, root, q, r);
    }
  }

  lemma {:induction false} ClearPage(mem: Memory, root: nat, p: Path)
    requires Tree(mem, root) && RightsOk(mem, root) && Depth(p) == 4 && p.index < ENTRIES
    requires IsTable(mem, TableAt(mem, root, p.up))
    ensures var mem' := Write(mem, TableAt(mem, root, p.up), p.index, ZERO);
            && Tree(mem', root) && RightsOk(mem', root) && AgreeOff(mem, mem', root, p)
            && EntryAt(mem', root, p) == ZERO
            && OthersKept(mem, mem', root, p) && WalkTo(mem', root, p) == Fault
            && forall q {:trigger TableAt(mem', root, q)} :: TableAt(mem', root, q) == TableAt(mem, root, q)
  {
    var mem' := Write(mem, TableAt(mem, root, p.up), p.index, ZERO);
    LeafWrite(mem, root, p, ZERO);
    TreeKept(mem, mem', root, p);
    forall q ensures RightAt(mem', root, q) {
      assert RightAt(mem, root, q);
      if q != p { assert AgreeAt(mem, mem', root, q); }
      if q.Child? && q.up != p { assert AgreeAt(mem, mem', root, q.up); }
    }
    forall r | Depth(r) == 4 && r != p ensures WalkTo(mem', root, r) == WalkTo(mem, root, r) {
      LeafKeepsWalk(mem, mem', root, p, r);
    }
    forall q ensures TableAt(mem', root, q) == TableAt(mem, root, q) {
      if q != p { AgreeTable(mem, mem', root, p, q); }
    }
    WalkReaches(mem', root, p.up);
  }

  /** What the processor finds for a page mapped with these flags. */
  function PageWalk(p: Path, f: nat, flags: Flags): Walk {
    Page(f, p, flags.writable, flags.user, !flags.nx)
  }

  lemma {:induction false} GainedSame(m0: Memory, m1: Memory, m2: Memory, root: nat, q: Path)
    requires forall r {:trigger TableAt(m2, root, r)} :: TableAt(m2, root, r) == TableAt(m1, root, r)
    ensures Gained(m0, m2, root, q) == Gained(m0, m1, root, q)
  {
    if q.Child? { GainedSame(m0, m1, m2, root, q.up); }
  }

  function OneGained(t: int, t': int): set<nat> {
    if t < 0 && t' >= 0 then {t' as nat} else {}
  }

  lemma {:induction false} GainedOff(m0: Memory, m1: Memory, m2: Memory, root: nat, q: Path, r: Path)
    requires AgreeOff(m1, m2, root, q) && Depth(r) < Depth(q)
    ensures Gained(m0, m2, root, r) == Gained(m0, m1, root, r)
  {
    if r.Child? {
      AgreeTable(m1, m2, root, q, r);
      GainedOff(m0, m1, m2, root, q, r.up);
    }
  }

  /** What one level of the walk does: no translation changes, and at most the entry at `q`
      does, which leads to the table `next` afterwards. */
  ghost predicate Descended(mem: Memory, mem': Memory, used: set<nat>, used': set<nat>, root: nat, q: Path, next: nat)
    requires q.Child?
  {
    && WalksKept(mem, mem', root) && used <= used' && Isolated(mem, mem', used, root)
    && OwnsMore(mem, mem', root, used' - used)
    && (next == 0 ==> mem' == mem && used' == used)
    && (next != 0 ==> TableAt(mem', root, q) == next && AgreeOff(mem, mem', root, q)
                      && (EntryAt(mem, root, q).present ==> TableAt(mem, root, q) >= 0)
                      && used' == used + OneGained(TableAt(mem, root, q), next)
                      && used !! OneGained(TableAt(mem, root, q), next))
  }

  ghost predicate OwnsMore(mem: Memory, mem': Memory, root: nat, more: set<nat>) {
    forall f {:trigger Owns(mem', root, f)} :: Owns(mem', root, f) <==> Owns(mem, root, f) || f in more
  }

  /** What the walk down to `q` does, `next` being 0 when it ran out of frames or met a
      large page. */
  ghost predicate Made(mem: Memory, mem': Memory, used: set<nat>, used': set<nat>, root: nat, q: Path, next: nat) {
    && WalksKept(mem, mem', root) && used <= used' && Isolated(mem, mem', used, root)
    && OwnsMore(mem, mem', root, used' - used)
    && (forall p | !Within(q, p) :: AgreeAt(mem, mem', root, p))
    && (next != 0 ==> TableAt(mem', root, q) == next && NotLarge(mem, root, q)
                      && used' == used + Gained(mem, mem', root, q) && used !! Gained(mem, mem', root, q))
  }

  predicate LargeAt(mem: Memory, root: nat, q: Path) {
    q.Child? && EntryAt(mem, root, q).present && TableAt(mem, root, q) < 0
  }

  /** No entry on the way to `q`, or at it, is a large page. */
  predicate NotLarge(mem: Memory, root: nat, q: Path) {
    q.Child? ==> (EntryAt(mem, root, q).present ==> TableAt(mem, root, q) >= 0) && NotLarge(mem, root, q.up)
  }

  /** The tables made above `q` do not make a large page of it. */
  lemma {:induction false} LargeBefore(mem: Memory, mem': Memory, root: nat, q: Path)
    requires q.Child? && forall p | !Within(q.up, p) :: AgreeAt(mem, mem', root, p)
    ensures LargeAt(mem', root, q) ==> !NotLarge(mem, root, q)
  {
    if Within(q.up, q) { WithinDepth(q.up, q); }
    assert AgreeAt(mem, mem', root, q);
  }

  lemma {:induction false} MadeFirst(mem: Memory, mem': Memory, used: set<nat>, used': set<nat>, root: nat, q: Path,
                                     next: nat)
    requires q.Child? && q.up == Root && next != 0 && Descended(mem, mem', used, used', root, q, next)
    ensures Made(mem, mem', used, used', root, q, next)
  {
    assert Gained(mem, mem', root, Root) == {} && NotLarge(mem, root, Root);
  }

  lemma {:induction false} MadeNext(m0: Memory, m1: Memory, m2: Memory, used0: set<nat>, used1: set<nat>,
                                    used2: set<nat>,
                                    root: nat, q: Path, prev: nat, next: nat)
    requires q.Child? && prev != 0 && Made(m0, m1, used0, used1, root, q.up, prev)
    requires Descended(m1, m2, used1, used2, root, q, next)
    ensures Made(m0, m2, used0, used2, root, q, next)
  {
    IsolatedTwice(m0, m1, m2, used0, used1, root);
    NotWithinSelf(q);
    forall p | !Within(q, p) ensures AgreeAt(m0, m2, root, p) {
      assert AgreeAt(m0, m1, root, p);
      if next != 0 { assert AgreeAt(m1, m2, root, p); }
    }
    assert AgreeAt(m0, m1, root, q);
    if next != 0 { GainedOff(m0, m1, m2, root, q, q.up); }
    forall f ensures Owns(m2, root, f) <==> Owns(m0, root, f) || f in used2 - used0 {
      assert Owns(m1, root, f) <==> Owns(m0, root, f) || f in used1 - used0;
    }
  }

  lemma {:induction false} PrivateUp(p: Path)
    requires Private(p) && p.up.Child?
    ensures Private(p.up)
  {
  }

  /** Filling in a page's own entry. */
  lemma {:induction false} SetPage(mem: Memory, root: nat, p: Path, frame: nat, flags: Flags)
    requires Tree(mem, root) && RightsOk(mem, root) && Depth(p) == 4 && p.up.Child? && p.index < ENTRIES && Private(p)
    requires IsTable(mem, TableAt(mem, root, p.up))
    requires flags.user ==> EntryAt(mem, root, p.up).user
    ensures var e := PageEntry(frame, flags);
            var mem' := Write(mem, TableAt(mem, root, p.up), p.index, e);
            && Tree(mem', root) && RightsOk(mem', root) && EntryAt(mem', root, p) == e
            && OthersKept(mem, mem', root, p) && AgreeOff(mem, mem', root, p)
            && WalkTo(mem', root, p) == PageWalk(p, frame, flags)
            && (forall q {:trigger TableAt(mem', root, q)} :: TableAt(mem', root, q) == TableAt(mem, root, q))
            && (forall f {:trigger Owns(mem', root, f)} | !OwnsAt(mem, root, f, p) ::
                  Owns(mem', root, f) <==> Owns(mem, root, f) || (flags.owned && f == frame))
  {
    var e := PageEntry(frame, flags);
    var mem' := Write(mem, TableAt(mem, root, p.up), p.index, e);
    LeafWrite(mem, root, p, e);
    TreeKept(mem, mem', root, p);
    forall q ensures RightAt(mem', root, q) {
      assert RightAt(mem, root, q);
      if q != p { assert AgreeAt(mem, mem', root, q); }
      if q.Child? && q.up != p { assert AgreeAt(mem, mem', root, q.up); }
    }
    forall r | Depth(r) == 4 && r != p ensures WalkTo(mem', root, r) == WalkTo(mem, root, r) {
      LeafKeepsWalk(mem, mem', root, p, r);
    }
    forall q ensures TableAt(mem', root, q) == TableAt(mem, root, q) {
      if q != p { AgreeTable(mem, mem', root, p, q); }
    }
    WalkReaches(mem', root, p.up);
    WalkRights(mem', root, p);
    forall f | !OwnsAt(mem, root, f, p)
      ensures Owns(mem', root, f) <==> Owns(mem, root, f) || (flags.owned && f == frame)
    {
      OwnsAdded(mem, mem', root, p, f);
    }
  }

  /** The page keeps its frame and has exactly the new flags; nothing else changed, and it is
      translated with those rights if the tables above grant user access. */
  ghost predicate Protected(mem: Memory, mem': Memory, root: nat, p: Path, flags: Flags)
    requires p.Child? && p.up.Child?
  {
    var f, user := EntryAt(mem, root, p).frame, EntryAt(mem, root, p.up).user;
    && Tree(mem', root) && AgreeOff(mem, mem', root, p) && OthersKept(mem, mem', root, p)
    && EntryAt(mem', root, p) == PageEntry(f, flags)
    && ((flags.user ==> user) ==> RightsOk(mem', root) && WalkTo(mem', root, p) == PageWalk(p, f, flags))
    && (flags.user && !user ==> !RightsOk(mem', root))
  }

  lemma {:induction false} ProtectLeaf(mem: Memory, root: nat, p: Path, flags: Flags)
    requires Tree(mem, root) && RightsOk(mem, root) && Depth(p) == 4 && p.up.Child? && p.index < ENTRIES
    requires IsTable(mem, TableAt(mem, root, p.up)) && EntryAt(mem, root, p).present
    ensures var mem' := Write(mem, TableAt(mem, root, p.up), p.index, PageEntry(EntryAt(mem, root, p).frame, flags));
            && Protected(mem, mem', root, p, flags)
            && (forall q {:trigger TableAt(mem', root, q)} :: TableAt(mem', root, q) == TableAt(mem, root, q))
  {
    var e := PageEntry(EntryAt(mem, root, p).frame, flags);
    var mem' := Write(mem, TableAt(mem, root, p.up), p.index, e);
    LeafWrite(mem, root, p, e);
    TreeKept(mem, mem', root, p);
    NotWithinSelf(p);
    assert AgreeAt(mem, mem', root, p.up);
    forall q ensures TableAt(mem', root, q) == TableAt(mem, root, q) {
      if q != p { AgreeTable(mem, mem', root, p, q); }
    }
    forall r | Depth(r) == 4 && r != p ensures WalkTo(mem', root, r) == WalkTo(mem, root, r) {
      LeafKeepsWalk(mem, mem', root, p, r);
    }
    if flags.user ==> EntryAt(mem, root, p.up).user {
      forall q ensures RightAt(mem', root, q) {
        assert RightAt(mem, root, q);
        if q != p { assert AgreeAt(mem, mem', root, q); }
        if q.Child? && q.up != p { assert AgreeAt(mem, mem', root, q.up); }
      }
      WalkReaches(mem', root, p.up);
      WalkRights(mem', root, p);
    } else {
      assert !RightAt(mem', root, p);
    }
  }

  // ----- other spaces

  predicate SameTable(mem: Memory, mem': Memory, t: nat) {
    if t in mem then t in mem' && mem'[t] == mem[t] else t !in mem'
  }

  /** A table of the space that is not part of the shared kernel map. */
  ghost predicate PrivateTable(mem: Memory, root: nat, t: nat) {
    exists q :: !Within(q, KERNEL) && TableAt(mem, root, q) == t
  }

  /** Of the frames in use, only the space's own tables are written or become its tables. */
  ghost predicate Isolated(mem: Memory, mem': Memory, used: set<nat>, root: nat) {
    && (forall t {:trigger SameTable(mem, mem', t)} | t in used && !PrivateTable(mem, root, t) ::
         SameTable(mem, mem', t))
    && (forall t {:trigger PrivateTable(mem', root, t)} | t in used && PrivateTable(mem', root, t) ::
          PrivateTable(mem, root, t))
  }

  /** One write, to a table of the space and possibly to one fresh frame. */
  lemma {:induction false} StepIsolated(mem: Memory, mem': Memory, used: set<nat>, root: nat, q: Path, t: nat,
                                        added: nat)
    requires q.Child? && !Within(q, KERNEL) && TableAt(mem, root, q.up) == t
    requires forall f | f != t && f != added :: SameTable(mem, mem', f)
    requires added in used ==> SameTable(mem, mem', added)
    requires forall p {:trigger TableAt(mem', root, p)} ::
               TableAt(mem', root, p) == TableAt(mem, root, p) || TableAt(mem', root, p) == -1
               || (TableAt(mem', root, p) == added && added !in used)
    ensures Isolated(mem, mem', used, root)
  {
    assert !Within(q.up, KERNEL);
    assert PrivateTable(mem, root, t);
    forall f | f in used && PrivateTable(mem', root, f) ensures PrivateTable(mem, root, f) {
      var p :| !Within(p, KERNEL) && TableAt(mem', root, p) == f;
      assert TableAt(mem, root, p) == f;
    }
  }

  lemma {:induction false} IsolatedTwice(m0: Memory, m1: Memory, m2: Memory, used0: set<nat>, used1: set<nat>,
                                         root: nat)
    requires Isolated(m0, m1, used0, root) && Isolated(m1, m2, used1, root) && used0 <= used1
    ensures Isolated(m0, m2, used0, root)
  {
    forall t | t in used0 && !PrivateTable(m0, root, t) ensures SameTable(m0, m2, t) {
      assert SameTable(m0, m1, t);
      assert !PrivateTable(m1, root, t);
      assert SameTable(m1, m2, t);
    }
  }

  /** Two spaces have at most kernel tables in common. */
  ghost predicate Apart(mem: Memory, root: nat, other: nat) {
    forall p {:trigger TableAt(mem, other, p)} :: TableAt(mem, other, p) >= 0 ==>
      !PrivateTable(mem, root, TableAt(mem, other, p))
  }

  /** Mapping in one space changes no entry, and so no translation, of another. */
  lemma {:induction false} OtherSpaceKept(mem: Memory, mem': Memory, used: set<nat>, root: nat, other: nat, p: Path)
    requires Isolated(mem, mem', used, root) && Apart(mem, root, other)
    requires forall q {:trigger TableAt(mem, other, q)} ::
             TableAt(mem, other, q) >= 0 ==> TableAt(mem, other, q) in used
    ensures TableAt(mem', other, p) == TableAt(mem, other, p) && AgreeAt(mem, mem', other, p)
    ensures WalkTo(mem', other, p) == WalkTo(mem, other, p)
  {
    if p.Child? {
      OtherSpaceKept(mem, mem', used, root, other, p.up);
      var t := TableAt(mem, other, p.up);
      if t >= 0 { assert SameTable(mem, mem', t); }
    }
  }

  /** The tables along a path that exist after but not before. */
  function Gained(mem: Memory, mem': Memory, root: nat, q: Path): set<nat> {
    match q
    case Root => {}
    case Child(up, _) =>
      Gained(mem, mem', root, up) +
      (if TableAt(mem, root, q) < 0 && TableAt(mem', root, q) >= 0 then {TableAt(mem', root, q) as nat} else {})
  }

  /** `used'` adds fresh frames to `used`. */
  predicate Enlarged(used: set<nat>, used': set<nat>, more: set<nat>) {
    used' == used + more && used !! more
  }

  /** Translations of all pages but `p` are the same. */
  ghost predicate OthersKept(mem: Memory, mem': Memory, root: nat, p: Path) {
    forall r {:trigger WalkTo(mem', root, r)} | Depth(r) == 4 && r != p :: WalkTo(mem', root, r) == WalkTo(mem, root, r)
  }

  ghost predicate WalksKept(mem: Memory, mem': Memory, root: nat) {
    forall r {:trigger WalkTo(mem', root, r)} | Depth(r) == 4 :: WalkTo(mem', root, r) == WalkTo(mem, root, r)
  }

  lemma {:induction false} StepRights(mem: Memory, mem': Memory, root: nat, q: Path)
    requires RightsOk(mem, root) && AgreeOff(mem, mem', root, q) && q.Child? && InnerStep(mem, mem', root, q)
    requires EntryAt(mem', root, q).writable && !EntryAt(mem', root, q).nx
    requires EntryAt(mem, root, q).user ==> EntryAt(mem', root, q).user
    requires EntryAt(mem', root, q).user && q.up.Child? ==> EntryAt(mem, root, q.up).user
    ensures RightsOk(mem', root)
  {
    forall p ensures RightAt(mem', root, p) {
      assert RightAt(mem, root, p);
      NotWithinSelf(q);
      if p != q { assert AgreeAt(mem, mem', root, p); }
      if p.Child? && p.up != q { assert AgreeAt(mem, mem', root, p.up); }
    }
  }

  /** An entry that already leads to a table is opened to the new page's rights. */
  lemma {:induction false} WidenInner(mem: Memory, root: nat, q: Path, flags: Flags)
    requires Tree(mem, root) && RightsOk(mem, root)
    requires q.Child? && q.index < ENTRIES && Points(EntryAt(mem, root, q), Depth(q))
    requires flags.user && q.up.Child? ==> EntryAt(mem, root, q.up).user
    ensures IsTable(mem, TableAt(mem, root, q.up))
    ensures var e := Widened(EntryAt(mem, root, q), flags);
            var mem' := Write(mem, TableAt(mem, root, q.up), q.index, e);
            && Tree(mem', root) && RightsOk(mem', root) && AgreeOff(mem, mem', root, q)
            && InnerStep(mem, mem', root, q) && EntryAt(mem', root, q) == e
            && forall p {:trigger TableAt(mem', root, p)} :: TableAt(mem', root, p) == TableAt(mem, root, p)
  {
    var e := Widened(EntryAt(mem, root, q), flags);
    var mem' := Write(mem, TableAt(mem, root, q.up), q.index, e);
    assert RightAt(mem, root, q);
    RightsWrite(mem, root, q, e);
    TreeKept(mem, mem', root, q);
    StepRights(mem, mem', root, q);
    forall p ensures TableAt(mem', root, p) == TableAt(mem, root, p) {
      if p != q { AgreeTable(mem, mem', root, q, p); }
    }
  }

  /** An absent entry gets a fresh, empty table. */
  lemma {:induction false} AddTable(mem: Memory, root: nat, q: Path, f: nat, flags: Flags)
    requires Tree(mem, root) && RightsOk(mem, root) && OutsideTree(mem, root, f)
    requires q.Child? && q.index < ENTRIES && Depth(q) <= 3 && IsTable(mem, TableAt(mem, root, q.up))
    requires !EntryAt(mem, root, q).present
    requires flags.user && q.up.Child? ==> EntryAt(mem, root, q.up).user
    ensures var e := TableEntry(f, flags);
            var mem' := Write(mem[f := ZeroTable()], TableAt(mem, root, q.up), q.index, e);
            && Tree(mem', root) && RightsOk(mem', root) && AgreeOff(mem, mem', root, q)
            && InnerStep(mem, mem', root, q) && EntryAt(mem', root, q) == e
            && forall p {:trigger TableAt(mem', root, p)} ::
                 TableAt(mem', root, p) == if p == q then f else TableAt(mem, root, p)
  {
    var e := TableEntry(f, flags);
    var mem' := Write(mem[f := ZeroTable()], TableAt(mem, root, q.up), q.index, e);
    NewTable(mem, root, q, f, e);
    TreeKept(mem, mem', root, q);
    StepRights(mem, mem', root, q);
    forall p ensures TableAt(mem', root, p) == if p == q then f else TableAt(mem, root, p) {
      if p != q { AgreeTable(mem, mem', root, q, p); }
    }
  }
}

/** process::run and load_segments of kernel/process.cpp over the page tables of Paging. */
module ProcessRun {
  import opened PageModel
  import opened Paging
  import opened SpaceLife
  import opened WxPages
  import opened Loader
  import Elf
  import InitialStack

  /** How an attempt to run a file ends. */
  datatype Outcome = Rejected | NoSpace | LoadFailed | BadArguments | StackFailed | WxRefused | NoTask
                   | Started(root: nat, entry: nat, sp: nat)

  class Runner {
    const spaces: AddressSpaces
    var ram: map<nat, seq<Byte>>  // what data frames hold

    constructor (spaces: AddressSpaces)
      ensures this.spaces == spaces
    {
      this.spaces := spaces;
      ram := map[];
    }

    /** The space under construction: it answers for all frames beyond `base`, the kernel's space
        is as in m0, it holds exactly the image, and if `low` only through PML4 slot 0. */
    ghost predicate Holding(g: Setup, img: ImageMap)
      reads this, spaces, spaces.pmm, spaces.pmm.bitmap
    {
      && Alive(spaces, g.root, g.base) && KernelIntact(g.m0, spaces.mem, g.base, g.root, g.kernel)
      && Held(spaces.mem, ram, g.root, img) && Unshared(spaces.mem, g.root, img)
      && (g.low ==> OnlySlot0(spaces.mem, g.root))
    }

    /** A frame is taken, filled and mapped; given back if it cannot be mapped. A page that was
        there before loses its frame for good. */
    method MapPage(root: nat, va: nat, bytes: seq<Byte>, flags: Flags, ghost g: Setup, ghost img: ImageMap)
      returns (ok: bool, ghost g': Setup)
      requires Holding(g, img) && root == g.root && (g.low ==> va < TWO_39)
      requires PageAddress(va) && flags.owned
      modifies `ram, spaces`mem, spaces.pmm, spaces.pmm.bitmap
      ensures Holding(g', if ok then img[va := PageSpec(flags, bytes)] else img)
      ensures Leaks(g, g', ok && va in img)
      ensures Costs(old(spaces.pmm.freeCount), spaces.pmm.freeCount, 1, ok)
    {
      ghost var mem, used, was := spaces.mem, spaces.pmm.Used(), ram;
      PageThere(mem, ram, root, img, va);
      PagePrivate(va);
      HeldSmall(mem, ram, root, img);
      SmallWay(mem, root, PathOf(va));
      g' := g;
      var f := spaces.AllocFrame();
      if f == 0 { return false, g; }
      ram := ram[f := bytes];
      ok := MapFrame(spaces, root, va, f, flags, g.base, used, g.m0, g.kernel);
      HeldAfter(mem, was, root, img, spaces.mem, va, f, PageSpec(flags, bytes), ok, g.base, used);
      UnsharedAfter(mem, was, root, img, spaces.mem, va, f, PageSpec(flags, bytes), ok, g.base, used);
      LostApart(mem, root, PathOf(va), ok, g.base, used);
      g' := g.(base := g.base + Lost(mem, root, PathOf(va), ok));
    }

    /** One page of a segment; `after` is the image with it. */
    method LoadPage(file: seq<Byte>, ph: Phdr, va: nat, root: nat, ghost g: Setup, ghost img: ImageMap,
                    ghost after: ImageMap)
      returns (ok: bool)
      requires Holding(g, img) && root == g.root && (g.low ==> va < TWO_39) && Fits(ph, |file|)
      requires PageAddress(va) && va !in img && after == img[va := SpecOf(file, ph, va)]
      modifies `ram, spaces`mem, spaces.pmm, spaces.pmm.bitmap
      ensures Holding(g, if ok then after else img)
      ensures Costs(old(spaces.pmm.freeCount), spaces.pmm.freeCount, 1, ok)
    {
      var bytes := FillFrame(file, ph, va);
      ghost var same;
      ok, same := MapPage(root, va, bytes, SegmentFlags(ph.flags), g, img);
    }

    /** The pages of one segment; images[p] is the image after p of them. */
    method LoadPages(file: seq<Byte>, ph: Phdr, root: nat, ghost g: Setup, ghost images: seq<ImageMap>)
      returns (count: nat)
      requires Fits(ph, |file|) && |images| == PageCount(ph) + 1 && Holding(g, images[0]) && root == g.root
      requires forall p | 0 <= p < PageCount(ph) :: NextImage(file, ph, images[p], images[p + 1], p)
      requires g.low ==> Elf.PageEnd(ph) <= TWO_39
      modifies `ram, spaces`mem, spaces.pmm, spaces.pmm.bitmap
      ensures count <= PageCount(ph) && Holding(g, images[count])
      ensures Costs(old(spaces.pmm.freeCount), spaces.pmm.freeCount, PageCount(ph), count == PageCount(ph))
    {
      count := 0;
      while count < PageCount(ph)
        invariant count <= PageCount(ph) && Holding(g, images[count])
        invariant Costs(old(spaces.pmm.freeCount), spaces.pmm.freeCount, count, true)
      {
        assert NextImage(file, ph, images[count], images[count + 1], count);
        var ok := LoadPage(file, ph, Elf.PageStart(ph) + count * PAGE, root, g, images[count], images[count + 1]);
        if !ok { return; }
        count := count + 1;
      }
    }

    /** A segment: all its pages, or failure. */
    method LoadSegment(file: seq<Byte>, ph: Phdr, root: nat, ghost g: Setup, ghost img: ImageMap)
      returns (ok: bool, ghost img': ImageMap)
      requires Loadable(ph, |file|) && Clear(img, ph) && (g.low ==> Elf.PageEnd(ph) <= TWO_39)
      requires Holding(g, img) && root == g.root
      modifies `ram, spaces`mem, spaces.pmm, spaces.pmm.bitmap
      ensures Holding(g, img') && (ok ==> img' == img + SegmentImage(file, ph, PageCount(ph)))
      ensures Costs(old(spaces.pmm.freeCount), spaces.pmm.freeCount, PageCount(ph), ok)
    {
      ghost var images := Images(file, ph, img);
      var count := LoadPages(file, ph, root, g, images);
      ok, img' := count == PageCount(ph), images[count];
    }

    /** All loadable segments: on success the space holds exactly their image. */
    method LoadSegments(file: seq<Byte>, phs: seq<Phdr>, root: nat, ghost g: Setup)
      returns (ok: bool, ghost img: ImageMap)
      requires Holding(g, map[]) && root == g.root && Elf.SegmentsOk(phs, |file|) && (g.low ==> BelowSlot1(phs))
      modifies `ram, spaces`mem, spaces.pmm, spaces.pmm.bitmap
      ensures Holding(g, img) && AllFit(phs, |file|) && (ok ==> img == ImageOf(file, phs))
      ensures Costs(old(spaces.pmm.freeCount), spaces.pmm.freeCount, PageTotal(phs), ok)
    {
      PrefixOk(phs, |file|, 0);
      img := map[];
      for i := 0 to |phs|
        invariant AllFit(phs[..i], |file|) && img == ImageOf(file, phs[..i]) && Holding(g, img)
        invariant Costs(old(spaces.pmm.freeCount), spaces.pmm.freeCount, PageTotal(phs[..i]), true)
      {
        NextSegment(file, phs, i);
        NextTotal(phs, i);
        if phs[i].kind != Elf.PT_LOAD { continue; }
        ok, img := LoadSegment(file, phs[i], root, g, img);
        if !ok { return; }
      }
      assert phs[..|phs|] == phs;
      ok := true;
    }

    /** The four pages of the stack window, over whatever the segments put there. */
    method MapStack(win: seq<Byte>, root: nat, ghost g: Setup, ghost img: ImageMap)
      returns (ok: bool, ghost img': ImageMap, ghost g': Setup)
      requires Holding(g, img) && root == g.root && |win| == InitialStack.STACK_SIZE
      modifies `ram, spaces`mem, spaces.pmm, spaces.pmm.bitmap
      ensures Holding(g', img') && img.Keys <= img'.Keys && (ok ==> img' == img + StackImage(win, 4))
      ensures g' == g.(base := g'.base) && g.base <= g'.base
      ensures StackClear(img, 4) ==> g' == g
      ensures ok && !StackClear(img, 4) ==> g'.base != g.base
      ensures Costs(old(spaces.pmm.freeCount), spaces.pmm.freeCount, 4, ok)
    {
      img', g' := img, g;
      assert img + StackImage(win, 0) == img;
      for n := 0 to 4
        invariant img' == img + StackImage(win, n) && Holding(g', img') && Leaks(g, g', !StackClear(img, n))
        invariant Costs(old(spaces.pmm.freeCount), spaces.pmm.freeCount, n, true)
      {
        NextStackPage(win, img, n);
        var va, bytes := StackPage(n), win[PAGE * n..PAGE * (n + 1)];
        ok, g' := MapPage(root, va, bytes, STACK_FLAGS, g', img');
        if !ok { return; }
        img' := img'[va := PageSpec(STACK_FLAGS, bytes)];
      }
      ok := true;
    }

    /** The stack contents, on whatever the window held before. */
    method PrepareStack(args: seq<InitialStack.CString>, envp: seq<InitialStack.CString>)
      returns (ok: bool, sp: nat, win: seq<Byte>)
      requires InitialStack.AllNulFree(args) && InitialStack.AllNulFree(envp)
      ensures ok <==> InitialStack.Fits(args, envp)
      ensures ok ==> Prepared(win, sp, args, envp)
    {
      var window := new Byte[InitialStack.STACK_SIZE];
      ok, sp := InitialStack.BuildInitialStack(window, args, envp);
      win := window[..];
    }

    /** From an empty space to a loaded process: segments, stack, and the audit. */
    method Populate(file: seq<Byte>, args: seq<InitialStack.CString>, envp: seq<InitialStack.CString>, root: nat,
                    ghost g: Setup)
      returns (r: Outcome, ghost img: ImageMap, ghost win: seq<Byte>, ghost g': Setup)
      requires Holding(g, map[]) && root == g.root && Elf.Acceptable(file)
      requires g.low ==> BelowSlot1(Elf.Phdrs(file))
      requires InitialStack.AllNulFree(args) && InitialStack.AllNulFree(envp)
      modifies `ram, spaces`mem, spaces.pmm, spaces.pmm.bitmap
      ensures Holding(g', img) && (r in {LoadFailed, BadArguments, StackFailed} || (r.Started? && r.root == root))
      ensures r.Started? ==> Complete(file, args, envp, r, img, win)
      ensures AllFit(Elf.Phdrs(file), |file|) && (r != LoadFailed ==> ImageOf(file, Elf.Phdrs(file)).Keys <= img.Keys)
      ensures g' == g.(base := g'.base) && g.base <= g'.base
      ensures AvoidsStack(Elf.Phdrs(file)) || r in {LoadFailed, BadArguments} ==> g' == g
      ensures !AvoidsStack(Elf.Phdrs(file)) && r.Started? ==> g'.base != g.base
      ensures Costs(old(spaces.pmm.freeCount), spaces.pmm.freeCount, PageTotal(Elf.Phdrs(file)) + 4,
                    r != LoadFailed && r != StackFailed)
      ensures (r == BadArguments ==> !InitialStack.Fits(args, envp)) && (r.Started? ==> InitialStack.Fits(args, envp))
    {
      var phs := Elf.Phdrs(file);
      win, g' := [], g;
      var ok;
      ok, img := LoadSegments(file, phs, root, g);
      if !ok { return LoadFailed, img, win, g; }
      var sp, window;
      ok, sp, window := PrepareStack(args, envp);
      win := window;
      if !ok { return BadArguments, img, win, g; }
      ImageClear(file, phs);
      ok, img, g' := MapStack(window, root, g, img);
      if !ok { return StackFailed, img, win, g'; }
      ImageFlags(file, phs, window);
      NoWxImage(spaces.mem, ram, root, img);
      var violations, _ := CountWxPages(spaces, root);
      if violations != 0 { return WxRefused, img, win, g'; }
      r := Started(root, Elf.Entry(file), sp);
    }

    /** destroy_address_space on a failure path. */
    method Abandon(root: nat, ghost g: Setup, ghost img: ImageMap)
      requires Holding(g, img) && root == g.root
      modifies spaces.pmm, spaces.pmm.bitmap
      ensures spaces.Valid() && KernelSame(g.m0, spaces.mem, g.kernel)
      ensures g.low ==> spaces.pmm.Used() == g.base
      ensures g.base <= spaces.pmm.Used()
      ensures (exists va | va in img :: va >= TWO_39) ==> spaces.pmm.Used() != g.base
    {
      ghost var used := spaces.pmm.Used();
      KernelWalks(g.m0, spaces.mem, g.base, root, g.kernel);
      HighPage(spaces.mem, ram, root, img);
      spaces.DestroyAddressSpace(root);
      DestroyExact(spaces.mem, root, g.base, used, spaces.pmm.Used());
    }

    /** A new space, holding nothing yet. */
    method CreateSpace(kernel: nat, ghost low: bool) returns (root: nat, ghost g: Setup)
      requires spaces.Valid() && spaces.Space(kernel) && !EntryAt(spaces.mem, kernel, KERNEL).user
      modifies spaces`mem, spaces.pmm, spaces.pmm.bitmap
      ensures root == 0 <==> !old(EntryAt(spaces.mem, kernel, Child(Root, 0))).present || old(spaces.pmm.freeCount) < 2
      ensures root != 0 ==> spaces.pmm.freeCount == old(spaces.pmm.freeCount) - 2
      ensures root == 0 ==> spaces.Valid() && spaces.mem == old(spaces.mem)
                            && spaces.pmm.Used() == old(spaces.pmm.Used())
      ensures root != 0 ==> g == Setup(root, old(spaces.pmm.Used()), old(spaces.mem), kernel, low) && Holding(g, map[])
    {
      ghost var m0, base := spaces.mem, spaces.pmm.Used();
      root := spaces.CreateAddressSpace(kernel);
      g := Setup(root, base, m0, kernel, low);
      if root != 0 { EmptyHeld(spaces.mem, ram, root); }
    }

    /** A new space is filled and becomes a process, or is abandoned. */
    method Launch(file: seq<Byte>, args: seq<InitialStack.CString>, envp: seq<InitialStack.CString>, root: nat,
                  taskCreated: bool, ghost g: Setup)
      returns (r: Outcome, ghost win: seq<Byte>, ghost spare: nat)
      requires Holding(g, map[]) && root == g.root && Elf.Acceptable(file) && g.low == BelowSlot1(Elf.Phdrs(file))
      requires InitialStack.AllNulFree(args) && InitialStack.AllNulFree(envp)
      modifies `ram, spaces`mem, spaces.pmm, spaces.pmm.bitmap
      ensures spaces.Valid() && KernelSame(g.m0, spaces.mem, g.kernel) && g.base <= spaces.pmm.Used()
      ensures r != NoSpace && (!r.Started? ==> GivesBack(file, r, spaces.pmm.Used() == g.base))
      ensures Reason(r, true, InitialStack.Fits(args, envp), taskCreated, old(spaces.pmm.freeCount) + 2,
                     PageTotal(Elf.Phdrs(file)) + 4, spare)
      ensures r.Started? ==> Running(file, args, envp, r, win)
    {
      ghost var img, g';
      r, img, win, g' := Populate(file, args, envp, root, g);
      spare := spaces.pmm.freeCount;
      HighImage(file, Elf.Phdrs(file));
      if r.Started? {
        if taskCreated {
          KernelWalks(g'.m0, spaces.mem, g'.base, root, g.kernel);
          return;
        }
        r := NoTask;
      }
      Abandon(root, g', img);
    }

    /** The process has its whole image, no frame shared, and its arguments. */
    ghost predicate Running(file: seq<Byte>, args: seq<InitialStack.CString>, envp: seq<InitialStack.CString>,
                            r: Outcome, win: seq<Byte>)
      requires r.Started? && Elf.HeaderOk(file)
      reads this, spaces
    {
      exists img :: Held(spaces.mem, ram, r.root, img) && Unshared(spaces.mem, r.root, img)
                 && Complete(file, args, envp, r, img, win)
    }

    /** A file is run: rejected exactly if the validator refuses it; never refused by the audit;
        started only with its whole image and its arguments in place. Whatever happens the kernel's
        translations stay. On failure every frame is given back if all segments lie below 2^39 and
        none has a page in the stack window; if the failure comes after the stack is mapped, only then.
        Each failure has its one reason; where frames ran out, `spare` is the number free at that point,
        at most the one given back, so that an accepted file starts if there are enough. */
    method Run(file: seq<Byte>, name: InitialStack.CString, argv: seq<InitialStack.CString>,
               envp: seq<InitialStack.CString>, kernel: nat, taskCreated: bool)
      returns (r: Outcome, ghost win: seq<Byte>, ghost spare: nat)
      requires spaces.Valid() && spaces.Space(kernel) && !EntryAt(spaces.mem, kernel, KERNEL).user
      requires |file| < Elf.TWO_64
      requires InitialStack.NulFree(name) && InitialStack.AllNulFree(argv) && InitialStack.AllNulFree(envp)
      modifies `ram, spaces`mem, spaces.pmm, spaces.pmm.bitmap
      ensures spaces.Valid() && KernelSame(old(spaces.mem), spaces.mem, kernel)
      ensures r == Rejected <==> !Elf.Acceptable(file)
      ensures r != WxRefused
      ensures old(spaces.pmm.Used()) <= spaces.pmm.Used()
      ensures !r.Started? ==> GivesBack(file, r, spaces.pmm.Used() == old(spaces.pmm.Used()))
      ensures r != Rejected ==>
        var args, free := if argv == [] then [name] else argv, old(spaces.pmm.freeCount);
        var ready, pages := old(EntryAt(spaces.mem, kernel, Child(Root, 0))).present, PageTotal(Elf.Phdrs(file)) + 4;
        && Reason(r, ready, InitialStack.Fits(args, envp), taskCreated, free, pages, spare)
        && (ready && free >= 4 + 4 * pages ==> (r.Started? <==> InitialStack.Fits(args, envp) && taskCreated))
      ensures r.Started? ==> Running(file, if argv == [] then [name] else argv, envp, r, win)
    {
      win, spare := [], 0;
      var ok := Elf.Validate(file);
      if !ok { return Rejected, win, spare; }
      var root, g := CreateSpace(kernel, BelowSlot1(Elf.Phdrs(file)));
      if root == 0 { return NoSpace, win, spare; }
      r, win, spare := Launch(file, if argv == [] then [name] else argv, envp, root, taskCreated, g);
    }
  }

  /** At most four frames a page were taken, and a failure means that none was left but the one given
      back. */
  predicate Costs(before: nat, after: nat, pages: nat, ok: bool) {
    before <= after + 4 * pages && (!ok ==> after <= 1)
  }

  /** Why a run of an accepted file of so many pages, stack included, ends as it does; `free` frames
      were free at its start. */
  predicate Reason(r: Outcome, ready: bool, fits: bool, taskCreated: bool, free: nat, pages: nat, spare: nat) {
    match r
    case Rejected | WxRefused => false
    case NoSpace => !ready || free < 2
    case LoadFailed | StackFailed => spare <= 1 && free <= spare + 2 + 4 * pages
    case BadArguments => !fits
    case NoTask => !taskCreated
    case Started(_, _, _) => taskCreated && fits
  }

  /** The pages of all loadable segments. */
  function PageTotal(phs: seq<Phdr>): nat {
    if phs == [] then 0
    else
      var n := |phs| - 1;
      PageTotal(phs[..n]) + if phs[n].kind == Elf.PT_LOAD then PageCount(phs[n]) else 0
  }

  lemma {:induction false} NextTotal(phs: seq<Phdr>, i: nat)
    requires i < |phs|
    ensures PageTotal(phs[..i + 1]) == PageTotal(phs[..i]) + if phs[i].kind == Elf.PT_LOAD then PageCount(phs[i]) else 0
    ensures PageTotal(phs[..i + 1]) <= PageTotal(phs)
  {
    assert phs[..i + 1][..i] == phs[..i];
    TotalGrows(phs, i + 1);
  }

  lemma {:induction false} TotalGrows(phs: seq<Phdr>, n: nat)
    requires n <= |phs|
    ensures PageTotal(phs[..n]) <= PageTotal(phs)
    decreases |phs| - n
  {
    if n < |phs| {
      TotalGrows(phs, n + 1);
      assert phs[..n + 1][..n] == phs[..n];
    } else {
      assert phs[..n] == phs;
    }
  }

  /** An image holds small pages only. */
  lemma {:induction false} HeldSmall(mem: Memory, ram: map<nat, seq<Byte>>, root: nat, img: ImageMap)
    requires Held(mem, ram, root, img)
    ensures SmallOnly(mem, root)
  {
    forall p | Private(p) && Depth(p) == 4 ensures SmallAt(mem, root, p) {
      if HasPage(img, p) {
        var va :| va in img && PathOf(va) == p;
        assert PageHeld(mem, ram, root, va, img[va]);
      } else {
        assert Absent(mem, root, p);
      }
    }
  }

  /** When a run that failed leaves the frames in use as they were. */
  predicate GivesBack(file: seq<Byte>, r: Outcome, same: bool)
    requires r != Rejected ==> Elf.HeaderOk(file)
  {
    match r
    case Rejected | NoSpace => same
    case LoadFailed => BelowSlot1(Elf.Phdrs(file)) ==> same
    case BadArguments => same <==> BelowSlot1(Elf.Phdrs(file))
    case StackFailed =>
      && (BelowSlot1(Elf.Phdrs(file)) && AvoidsStack(Elf.Phdrs(file)) ==> same)
      && (same ==> BelowSlot1(Elf.Phdrs(file)))
    case _ => same <==> BelowSlot1(Elf.Phdrs(file)) && AvoidsStack(Elf.Phdrs(file))
  }

  /** The frames in use that no space answers for may grow; they do exactly if a page is lost. */
  predicate Leaks(g: Setup, g': Setup, lost: bool) {
    g' == g.(base := g'.base) && g.base <= g'.base && (g'.base == g.base <==> !lost)
  }

  /** A page at or above 2^39 lies outside PML4 slot 0. */
  lemma {:induction false} HighPage(mem: Memory, ram: map<nat, seq<Byte>>, root: nat, img: ImageMap)
    requires Held(mem, ram, root, img)
    ensures (exists va | va in img :: va >= TWO_39) ==> !OnlySlot0(mem, root)
  {
    if va :| va in img && va >= TWO_39 {
      assert PageHeld(mem, ram, root, va, img[va]);
      PagePrivate(va);
      assert EntryAt(mem, root, PathOf(va)).present;
    }
  }

  /** A segment that ends above 2^39 has a page there. */
  lemma {:induction false} HighImage(file: seq<Byte>, phs: seq<Phdr>)
    requires Elf.SegmentsOk(phs, |file|)
    ensures AllFit(phs, |file|) && (!BelowSlot1(phs) ==> exists va | va in ImageOf(file, phs) :: va >= TWO_39)
  {
    PrefixOk(phs, |file|, 0);
    if i :| 0 <= i < |phs| && phs[i].kind == Elf.PT_LOAD && Elf.PageEnd(phs[i]) > TWO_39 {
      assert Elf.HeaderKindOk(phs[i], |file|);
      var va := Elf.PageEnd(phs[i]) - PAGE;
      LastPage(phs[i], |file|);
      assert Covers(phs[i], va);
      ImagePages(file, phs, va);
    }
  }

  lemma {:induction false} LastPage(ph: Phdr, size: nat)
    requires Elf.SegmentOk(ph, size)
    ensures Elf.PageEnd(ph) >= PAGE && InPages(ph, Elf.PageEnd(ph) - PAGE)
    ensures Elf.PageEnd(ph) > TWO_39 ==> Elf.PageEnd(ph) - PAGE >= TWO_39
  {
    assert Elf.PageStart(ph) % PAGE == 0 && Elf.PageEnd(ph) % PAGE == 0;
  }

  lemma {:induction false} EmptyHeld(mem: Memory, ram: map<nat, seq<Byte>>, root: nat)
    requires forall p {:trigger EntryAt(mem, root, p)} | Private(p) && p != Child(Root, 0) ::
             EntryAt(mem, root, p) == ZERO
    ensures Held(mem, ram, root, map[]) && Unshared(mem, root, map[]) && OnlySlot0(mem, root)
  {
    forall p | Private(p) && Depth(p) == 4 ensures Absent(mem, root, p) {
      assert Depth(Child(Root, 0)) == 1;
      NoneLarge(mem, root, p.up);
      FaultsIfAbsent(mem, root, p);
    }
  }

  predicate Prepared(win: seq<Byte>, sp: nat, args: seq<InitialStack.CString>, envp: seq<InitialStack.CString>) {
    && |win| == InitialStack.STACK_SIZE && sp % 16 == 0
    && InitialStack.STACK_VIRT <= sp < InitialStack.STACK_VIRT + InitialStack.STACK_SIZE
    && InitialStack.ReadStart(win, sp) == InitialStack.Start(|args|, args, envp, 0, 0)
  }

  /** A finished process: the segments of the file, and a stack with its arguments. */
  predicate Complete(file: seq<Byte>, args: seq<InitialStack.CString>, envp: seq<InitialStack.CString>,
                     r: Outcome, img: ImageMap, win: seq<Byte>)
    requires r.Started? && Elf.HeaderOk(file)
  {
    && AllFit(Elf.Phdrs(file), |file|) && Prepared(win, r.sp, args, envp)
    && img == ImageOf(file, Elf.Phdrs(file)) + StackImage(win, 4)
    && r.entry == Elf.Entry(file)
  }

  ghost predicate KernelSame(m0: Memory, mem: Memory, kernel: nat) {
    forall p {:trigger WalkTo(mem, kernel, p)} :: WalkTo(mem, kernel, p) == WalkTo(m0, kernel, p)
  }

  lemma {:induction false} KernelWalks(m0: Memory, mem: Memory, base: set<nat>, root: nat, kernel: nat)
    requires KernelIntact(m0, mem, base, root, kernel)
    ensures KernelSame(m0, mem, kernel)
  {
    forall p ensures WalkTo(mem, kernel, p) == WalkTo(m0, kernel, p) { SameWalk(m0, mem, kernel, p); }
  }

  /** The stack window is clear of the image exactly if no segment reaches into it. */
  lemma {:induction false} ImageClear(file: seq<Byte>, phs: seq<Phdr>)
    requires Elf.SegmentsOk(phs, |file|)
    ensures AllFit(phs, |file|) && (StackClear(ImageOf(file, phs), 4) <==> AvoidsStack(phs))
  {
    PrefixOk(phs, |file|, 0);
    forall n: nat | n < 4 && AvoidsStack(phs) ensures StackPage(n) !in ImageOf(file, phs) {
      ImagePages(file, phs, StackPage(n));
    }
    forall i | 0 <= i < |phs| && phs[i].kind == Elf.PT_LOAD && StackClear(ImageOf(file, phs), 4)
      ensures Elf.PageEnd(phs[i]) <= InitialStack.STACK_VIRT
              || InitialStack.STACK_VIRT + InitialStack.STACK_SIZE <= Elf.PageStart(phs[i])
    {
      assert Elf.HeaderKindOk(phs[i], |file|);
      forall n: nat | n < 4 ensures !InPages(phs[i], StackPage(n)) {
        ImagePages(file, phs, StackPage(n));
        assert Covers(phs[i], StackPage(n)) <==> InPages(phs[i], StackPage(n));
      }
      FourPages(phs[i], |file|);
    }
  }

  /** A segment with none of the four stack pages lies wholly below or above them. */
  lemma {:induction false} FourPages(ph: Phdr, size: nat)
    requires Elf.SegmentOk(ph, size) && forall n: nat | n < 4 :: !InPages(ph, StackPage(n))
    ensures Elf.PageEnd(ph) <= InitialStack.STACK_VIRT
            || InitialStack.STACK_VIRT + InitialStack.STACK_SIZE <= Elf.PageStart(ph)
  {
    assert Elf.PageStart(ph) % PAGE == 0 && Elf.PageEnd(ph) % PAGE == 0;
    assert !InPages(ph, StackPage(0)) && !InPages(ph, StackPage(1)) && !InPages(ph, StackPage(2))
        && !InPages(ph, StackPage(3));
  }

  ghost predicate NoWxFlags(img: ImageMap) {
    forall va | va in img :: !(img[va].flags.writable && !img[va].flags.nx)
  }

  lemma {:induction false} ImageFlags(file: seq<Byte>, phs: seq<Phdr>, win: seq<Byte>)
    requires Elf.SegmentsOk(phs, |file|) && |win| == InitialStack.STACK_SIZE
    ensures AllFit(phs, |file|) && NoWxFlags(ImageOf(file, phs) + StackImage(win, 4))
  {
    PrefixOk(phs, |file|, 0);
    var img: ImageMap := ImageOf(file, phs) + StackImage(win, 4);
    forall va | va in img ensures !(img[va].flags.writable && !img[va].flags.nx) {
      ImagePages(file, phs, va);
      if i :| 0 <= i < |phs| && Covers(phs[i], va) { ImageValue(file, phs, va, i); }
      StackPages(win, 4, va);
    }
  }

  /** An image without writable and executable pages passes the audit. */
  lemma {:induction false} NoWxImage(mem: Memory, ram: map<nat, seq<Byte>>, root: nat, img: ImageMap)
    requires Held(mem, ram, root, img) && NoWxFlags(img)
    ensures NoWxPage(mem, root)
  {
    forall p | Private(p) && Depth(p) == 4 ensures !WxWalk(mem, root, p) {
      if HasPage(img, p) {
        var va :| va in img && PathOf(va) == p;
        assert PageHeld(mem, ram, root, va, img[va]);
      } else {
        assert Absent(mem, root, p);
      }
    }
  }

  /** What stays fixed while a process is built. */
  datatype Setup = Setup(root: nat, base: set<nat>, m0: Memory, kernel: nat, low: bool)

  /** No page of the segment is in the image. */
  ghost predicate Clear(img: ImageMap, ph: Phdr) {
    forall va {:trigger InPages(ph, va)} | InPages(ph, va) :: va !in img
  }

  /** Page p of the segment is new in `img`, and `after` is `img` with it. */
  ghost predicate NextImage(file: seq<Byte>, ph: Phdr, img: ImageMap, after: ImageMap, p: nat)
    requires Fits(ph, |file|)
  {
    var va := Elf.PageStart(ph) + p * PAGE;
    PageAddress(va) && va < Elf.PageEnd(ph) && va !in img && after == img[va := SpecOf(file, ph, va)]
  }

  /** The images a segment goes through. */
  lemma {:induction false} Images(file: seq<Byte>, ph: Phdr, img: ImageMap) returns (images: seq<ImageMap>)
    requires Loadable(ph, |file|) && Clear(img, ph)
    ensures |images| == PageCount(ph) + 1 && images[0] == img
    ensures images[PageCount(ph)] == img + SegmentImage(file, ph, PageCount(ph))
    ensures forall p | 0 <= p < PageCount(ph) :: NextImage(file, ph, images[p], images[p + 1], p)
  {
    images := [img];
    assert img + SegmentImage(file, ph, 0) == img;
    for n := 0 to PageCount(ph)
      invariant |images| == n + 1 && images[0] == img && images[n] == img + SegmentImage(file, ph, n)
      invariant forall p | 0 <= p < n :: NextImage(file, ph, images[p], images[p + 1], p)
    {
      NextPage(file, ph, img, n);
      images := images + [img + SegmentImage(file, ph, n + 1)];
    }
  }

  lemma {:induction false} NextPage(file: seq<Byte>, ph: Phdr, img: ImageMap, p: nat)
    requires Loadable(ph, |file|) && Clear(img, ph) && p < PageCount(ph)
    ensures NextImage(file, ph, img + SegmentImage(file, ph, p), img + SegmentImage(file, ph, p + 1), p)
  {
    var va := Elf.PageStart(ph) + p * PAGE;
    PageIn(ph, |file|, p);
    assert InPages(ph, va);
    SegmentPages(file, ph, p, va);
    AddPage(img, SegmentImage(file, ph, p), va, SpecOf(file, ph, va));
  }

  lemma {:induction false} AddPage(img: ImageMap, more: ImageMap, va: nat, spec: PageSpec)
    ensures (img + more)[va := spec] == img + more[va := spec]
  {
  }

  lemma {:induction false} NextSegment(file: seq<Byte>, phs: seq<Phdr>, i: nat)
    requires Elf.SegmentsOk(phs, |file|) && i < |phs|
    ensures AllFit(phs[..i], |file|) && AllFit(phs[..i + 1], |file|)
    ensures phs[i].kind == Elf.PT_LOAD ==> Loadable(phs[i], |file|) && Clear(ImageOf(file, phs[..i]), phs[i])
    ensures var before := ImageOf(file, phs[..i]);
            ImageOf(file, phs[..i + 1])
              == if phs[i].kind == Elf.PT_LOAD then before + SegmentImage(file, phs[i], PageCount(phs[i])) else before
  {
    PrefixOk(phs, |file|, i);
    PrefixOk(phs, |file|, i + 1);
    assert Elf.HeaderKindOk(phs[i], |file|);
    assert phs[..i + 1][..i] == phs[..i];
    if phs[i].kind == Elf.PT_LOAD {
      ValidLoadable(phs[i], |file|);
      forall va | InPages(phs[i], va) ensures va !in ImageOf(file, phs[..i]) {
        ImagePages(file, phs[..i], va);
        forall j | 0 <= j < i ensures !Covers(phs[..i][j], va) {
          assert Elf.ApartAt(phs, j, i);
        }
      }
    }
  }

  function StackPage(n: nat): nat {
    InitialStack.STACK_VIRT + PAGE * n
  }

  /** None of the first n stack pages is in the image. */
  predicate StackClear(img: ImageMap, n: nat) {
    forall k: nat {:trigger StackPage(k)} | k < n :: StackPage(k) !in img
  }

  lemma {:induction false} NextStackPage(win: seq<Byte>, img: ImageMap, n: nat)
    requires |win| == InitialStack.STACK_SIZE && n < 4
    ensures var va, so := StackPage(n), img + StackImage(win, n);
            && PageAddress(va) && va < TWO_39 && (va in so <==> va in img)
            && so[va := PageSpec(STACK_FLAGS, win[PAGE * n..PAGE * (n + 1)])] == img + StackImage(win, n + 1)
    ensures StackClear(img, n + 1) <==> StackClear(img, n) && StackPage(n) !in img
  {
    StackPages(win, n, StackPage(n));
  }

  lemma {:induction false} PageIn(ph: Phdr, size: nat, p: nat)
    requires Loadable(ph, size) && p < PageCount(ph)
    ensures InPages(ph, Elf.PageStart(ph) + p * PAGE) && PageAddress(Elf.PageStart(ph) + p * PAGE)
  {
  }
}

/** The kernel's own address space: the tables boot/stage2.asm fills, and what
    protect_kernel_image of kernel/paging.cpp makes of them. */
module KernelMap {
  import opened Frames
  import opened PageModel
  import opened Paging

  const PML4: nat := 1
  const PDPT: nat := 2
  const PD: nat := 3
  const TEXT_START: nat := 0x10_0000
  const IMAGE_END: nat := 0x20_0000

  function Link(f: nat): Entry {
    Entry(true, true, false, false, false, false, f)
  }

  /** The first gigabyte in 512 large pages, all but the first no-execute. */
  function LargePage(c: nat): Entry {
    Entry(true, true, false, false, true, c > 0, 512 * c)
  }

  function Directory(): (t: seq<Entry>)
    ensures |t| == ENTRIES && forall c | 0 <= c < ENTRIES :: t[c] == LargePage(c)
  {
    seq(ENTRIES, (c: nat) => LargePage(c))
  }

  function BootMemory(): Memory {
    map[PML4 := ZeroTable()[0 := Link(PDPT)], PDPT := ZeroTable()[0 := Link(PD)], PD := Directory()]
  }

  /** The kernel image in small pages: text executable, read-only data neither, the rest writable. */
  function ImagePage(d: nat, textEnd: nat, rodataEnd: nat): Entry {
    var addr := d * FRAME_SIZE;
    if TEXT_START <= addr < textEnd then Entry(true, false, false, false, false, false, d)
    else if textEnd <= addr < rodataEnd then Entry(true, false, false, false, false, true, d)
    else Entry(true, true, false, false, false, true, d)
  }

  function ImageTable(textEnd: nat, rodataEnd: nat): (t: seq<Entry>)
    ensures |t| == ENTRIES && forall d | 0 <= d < ENTRIES :: t[d] == ImagePage(d, textEnd, rodataEnd)
  {
    seq(ENTRIES, (d: nat) => ImagePage(d, textEnd, rodataEnd))
  }

  function ProtectedMemory(f: nat, textEnd: nat, rodataEnd: nat): Memory {
    BootMemory()[f := ImageTable(textEnd, rodataEnd)][PD := Directory()[0 := Link(f)]]
  }

  const IMAGE := Child(KERNEL, 0)

  /** What the entries of the kernel's tables are, path by path; `f` is the table of the image, or
      -1 as long as the image lies under a large page. */
  ghost predicate Describes(mem: Memory, f: int, textEnd: nat, rodataEnd: nat) {
    && IsTable(mem, PML4) && IsTable(mem, PDPT) && IsTable(mem, PD) && f >= -1 && (f >= 0 ==> f > PD && IsTable(mem, f))
    && (forall i: nat | i < ENTRIES :: mem[PML4][i] == if i == 0 then Link(PDPT) else ZERO)
    && (forall i: nat | i < ENTRIES :: mem[PDPT][i] == if i == 0 then Link(PD) else ZERO)
    && (forall c: nat | c < ENTRIES :: mem[PD][c] == if c == 0 && f >= 0 then Link(f) else LargePage(c))
    && (f >= 0 ==> forall d: nat | d < ENTRIES :: mem[f][d] == ImagePage(d, textEnd, rodataEnd))
  }

  function TableOf(f: int, p: Path): int {
    if p == Root then PML4
    else if p == Child(Root, 0) then PDPT
    else if p == KERNEL then PD
    else if p == IMAGE then f
    else -1
  }

  lemma {:induction false} Depths()
    ensures Depth(Child(Root, 0)) == 1 && Depth(KERNEL) == 2 && Depth(IMAGE) == 3
  {
    assert Depth(Child(Root, 0)) == 1;
    assert Depth(KERNEL) == 2;
  }

  lemma {:induction false} KernelTables(mem: Memory, f: int, textEnd: nat, rodataEnd: nat, p: Path)
    requires Describes(mem, f, textEnd, rodataEnd)
    ensures TableAt(mem, PML4, p) == TableOf(f, p)
  {
    if p.Child? {
      KernelTables(mem, f, textEnd, rodataEnd, p.up);
      Depths();
    }
  }

  /** The kernel's tables form a tree, every link grants all rights, and nothing is a user page. */
  lemma {:induction false} KernelTree(mem: Memory, f: int, textEnd: nat, rodataEnd: nat)
    requires Describes(mem, f, textEnd, rodataEnd)
    ensures Tree(mem, PML4) && RightsOk(mem, PML4) && !EntryAt(mem, PML4, KERNEL).user
    ensures forall p {:trigger TableAt(mem, PML4, p)} :: TableAt(mem, PML4, p) in {-1, PML4, PDPT, PD, f}
  {
    forall p ensures TableAt(mem, PML4, p) == TableOf(f, p) { KernelTables(mem, f, textEnd, rodataEnd, p); }
    forall p, q ensures SamePath(mem, PML4, p, q) {}
    forall p ensures RightAt(mem, PML4, p) {
      Depths();
      if p.Child? { assert TableAt(mem, PML4, p.up) == TableOf(f, p.up); }
    }
  }

  lemma {:induction false} BootDescribed(textEnd: nat, rodataEnd: nat)
    ensures Describes(BootMemory(), -1, textEnd, rodataEnd)
  {
  }

  lemma {:induction false} ProtectedDescribed(f: nat, textEnd: nat, rodataEnd: nat)
    requires f > PD
    ensures Describes(ProtectedMemory(f, textEnd, rodataEnd), f, textEnd, rodataEnd)
  {
  }

  /** The page with indices 0, 0, c, d. */
  function KernelPage(c: nat, d: nat): Path {
    Child(Child(KERNEL, c), d)
  }

  lemma {:induction false} KernelPath(a: nat)
    requires a < TWO_30
    ensures PathOf(a) == KernelPage(a / TWO_21, a / FRAME_SIZE % 512) && a / TWO_21 < 512
    ensures (512 * (a / TWO_21) + a / FRAME_SIZE % 512) * FRAME_SIZE == a / FRAME_SIZE * FRAME_SIZE
  {
    Quotients(a);
  }

  lemma {:induction false} LargeOffset(a: nat)
    ensures 512 * (a / TWO_21) * FRAME_SIZE + a % TWO_21 == a && a / FRAME_SIZE * FRAME_SIZE + a % FRAME_SIZE == a
  {
  }

  lemma {:induction false} PageDepths(c: nat, d: nat)
    ensures Depth(KernelPage(c, d)) == 4 && Depth(Child(KERNEL, c)) == 3
  {
    Depths();
  }

  /** Protected, the first gigabyte still maps to itself; a page of it can be executed exactly where the
      kernel's text is and written exactly outside text and read-only data. */
  lemma {:induction false} KernelWx(mem: Memory, f: nat, textEnd: nat, rodataEnd: nat, a: nat)
    requires Describes(mem, f, textEnd, rodataEnd) && TEXT_START < textEnd <= rodataEnd <= IMAGE_END && a < TWO_30
    ensures var w, page := WalkTo(mem, PML4, PathOf(a)), a / FRAME_SIZE * FRAME_SIZE;
            && w.Page? && !w.user && Physical(w, a) == a
            && (w.executable <==> 0x10_0000 <= page < textEnd)
            && (w.writable <==> !(0x10_0000 <= page < rodataEnd))
  {
    var c, d := a / TWO_21, a / FRAME_SIZE % 512;
    KernelPath(a);
    KernelPageWx(mem, f, textEnd, rodataEnd, c, d);
    PageDepths(c, d);
    LargeOffset(a);
  }

  /** As booted, it maps to itself too; exactly its first two megabytes are writable and executable. */
  lemma {:induction false} BootWx(a: nat)
    requires a < TWO_30
    ensures var w := WalkTo(BootMemory(), PML4, PathOf(a));
            w.Page? && !w.user && Physical(w, a) == a && w.writable && (w.executable <==> a < 0x20_0000)
  {
    var c, d := a / TWO_21, a / FRAME_SIZE % 512;
    KernelPath(a);
    BootPageWx(c, d);
    PageDepths(c, d);
    LargeOffset(a);
  }

  lemma {:induction false} KernelPageWx(mem: Memory, f: nat, textEnd: nat, rodataEnd: nat, c: nat, d: nat)
    requires Describes(mem, f, textEnd, rodataEnd) && TEXT_START < textEnd <= rodataEnd <= IMAGE_END
    requires c < ENTRIES && d < ENTRIES
    ensures var w, addr := WalkTo(mem, PML4, KernelPage(c, d)), (512 * c + d) * FRAME_SIZE;
            && w.Page? && !w.user
            && (if c == 0 then w.at == KernelPage(c, d) && w.frame == d
                else w.at == Child(KERNEL, c) && w.frame == 512 * c)
            && (w.executable <==> TEXT_START <= addr < textEnd)
            && (w.writable <==> !(TEXT_START <= addr < rodataEnd))
  {
    KernelTables(mem, f, textEnd, rodataEnd, Root);
    KernelTables(mem, f, textEnd, rodataEnd, Child(Root, 0));
    KernelTables(mem, f, textEnd, rodataEnd, KERNEL);
    KernelTables(mem, f, textEnd, rodataEnd, Child(KERNEL, c));
    Depths();
    assert Depth(Child(KERNEL, c)) == 3;
    assert WalkTo(mem, PML4, Child(Root, 0)) == Inner(true, false, true);
    assert WalkTo(mem, PML4, KERNEL) == Inner(true, false, true);
  }

  lemma {:induction false} BootPageWx(c: nat, d: nat)
    requires c < ENTRIES && d < ENTRIES
    ensures var w := WalkTo(BootMemory(), PML4, KernelPage(c, d));
            w.Page? && !w.user && w.at == Child(KERNEL, c) && w.writable && w.frame == 512 * c
            && (w.executable <==> c == 0)
  {
    var mem := BootMemory();
    BootDescribed(0, 0);
    KernelTables(mem, -1, 0, 0, Root);
    KernelTables(mem, -1, 0, 0, Child(Root, 0));
    KernelTables(mem, -1, 0, 0, KERNEL);
    Depths();
    assert Depth(Child(KERNEL, c)) == 3;
    assert WalkTo(mem, PML4, Child(Root, 0)) == Inner(true, false, true);
    assert WalkTo(mem, PML4, KERNEL) == Inner(true, false, true);
  }

  /** The kernel's space is one the other operations can start from. */
  ghost predicate KernelReady(s: AddressSpaces)
    reads s, s.pmm, s.pmm.bitmap
  {
    s.Valid() && s.Space(PML4) && !EntryAt(s.mem, PML4, KERNEL).user
  }

  /** Boot: the frame allocator, and the tables that are there already. */
  method Boot(bytes: nat, regions: seq<(nat, nat)>, kernelEnd: nat) returns (s: AddressSpaces)
    requires 0 < 8 * bytes <= MAX_FRAMES
    ensures fresh(s) && fresh(s.pmm) && fresh(s.pmm.bitmap) && KernelReady(s) && s.mem == BootMemory()
    ensures {PML4, PDPT, PD} <= s.pmm.Used()
  {
    var pmm := new FrameAllocator(bytes);
    pmm.Init(regions, kernelEnd);
    s := new AddressSpaces(BootMemory(), pmm);
    forall f: nat | f <= PD ensures f in Touched(0, 0x10_0000, 8 * bytes) {}
    BootDescribed(0, 0);
    KernelTree(s.mem, -1, 0, 0);
  }

  /** The large page over the kernel image becomes 512 small ones, if there is a frame for them and
      the image ends within it. */
  method ProtectKernelImage(s: AddressSpaces, textEnd: nat, rodataEnd: nat) returns (ok: bool, ghost f: nat)
    requires s.Valid() && s.mem == BootMemory() && {PML4, PDPT, PD} <= s.pmm.Used()
    modifies s`mem, s.pmm, s.pmm.bitmap
    ensures KernelReady(s)
    ensures ok <==> TEXT_START < textEnd <= rodataEnd <= IMAGE_END && old(s.pmm.Free()) != {}
    ensures ok ==> Describes(s.mem, f, textEnd, rodataEnd) && f !in old(s.pmm.Used())
                   && s.pmm.Used() == old(s.pmm.Used()) + {f}
    ensures !ok ==> s.mem == old(s.mem) && s.pmm.Used() == old(s.pmm.Used())
  {
    BootDescribed(0, 0);
    KernelTree(s.mem, -1, 0, 0);
    f := 0;
    if textEnd <= TEXT_START || rodataEnd < textEnd || rodataEnd > IMAGE_END { return false, f; }
    var frame := s.AllocFrame();
    if frame == 0 { return false, f; }
    f := frame;
    s.mem := s.mem[frame := ImageTable(textEnd, rodataEnd)];
    s.mem := s.mem[PD := s.mem[PD][0 := Link(frame)]];
    ProtectedDescribed(frame, textEnd, rodataEnd);
    KernelTree(s.mem, frame, textEnd, rodataEnd);
    ok := true;
  }
}

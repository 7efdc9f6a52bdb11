/** process::run of kernel/process.cpp: a validated file becomes a process image, page by page. */
module Loader {
  import opened PageModel
  import opened Paging
  import opened SpaceLife
  import Bytes
  import Elf
  import InitialStack

  type Byte = Bytes.Byte
  type Phdr = Elf.Phdr

  const PAGE: nat := 4096
  const TWO_48: nat := 0x1_0000_0000_0000

  /** What one page of the process is to hold, and with which rights. */
  datatype PageSpec = PageSpec(flags: Flags, bytes: seq<Byte>)

  /** A process image: pages by their virtual address. */
  type ImageMap = map<nat, PageSpec>

  // ----- segments

  /** segment_page_flags. */
  function SegmentFlags(flags: nat): Flags {
    Flags(Elf.Writable(flags), true, true, false, Elf.Writable(flags) || !Elf.Executable(flags))
  }

  /** Whatever the header says, no page is both writable and executable. */
  lemma {:induction false} SegmentFlagsWx(flags: nat)
    ensures !(SegmentFlags(flags).writable && !SegmentFlags(flags).nx)
    ensures SegmentFlags(flags).writable <==> Elf.Writable(flags)
    ensures !SegmentFlags(flags).nx <==> Elf.Executable(flags) && !Elf.Writable(flags)
  {
  }

  /** The byte of a segment at an address: from the file up to p_filesz, zero elsewhere. */
  function SegmentByte(file: seq<Byte>, ph: Phdr, a: nat): Byte
    requires ph.offset + ph.filesz <= |file|
  {
    if ph.vaddr <= a < ph.vaddr + ph.filesz then file[ph.offset + (a - ph.vaddr)] else 0
  }

  function PageBytes(file: seq<Byte>, ph: Phdr, va: nat): (r: seq<Byte>)
    requires ph.offset + ph.filesz <= |file|
    ensures |r| == PAGE && forall i | 0 <= i < PAGE :: r[i] == SegmentByte(file, ph, va + i)
  {
    seq<Byte>(PAGE, (i: nat) requires ph.offset + ph.filesz <= |file| => SegmentByte(file, ph, va + i))
  }

  /** The frame for one page of a segment, zeroed and then filled from the file. */
  method FillFrame(file: seq<Byte>, ph: Phdr, va: nat) returns (page: seq<Byte>)
    requires ph.offset + ph.filesz <= |file|
    ensures page == PageBytes(file, ph, va)
  {
    var dest := new Byte[PAGE](_ => 0);
    var dataEnd := ph.vaddr + ph.filesz;
    var copyStart := if va > ph.vaddr then va else ph.vaddr;
    var copyEnd := if va + PAGE < dataEnd then va + PAGE else dataEnd;
    if copyEnd > copyStart {
      var fileOff, pageOff, len := ph.offset + (copyStart - ph.vaddr), copyStart - va, copyEnd - copyStart;
      for b := 0 to len
        invariant forall i | 0 <= i < PAGE ::
                    dest[i] == if pageOff <= i < pageOff + b then SegmentByte(file, ph, va + i) else 0
      {
        dest[pageOff + b] := file[fileOff + b];
      }
    }
    page := dest[..];
  }

  // ----- the image in memory

  predicate PageHeld(mem: Memory, ram: map<nat, seq<Byte>>, root: nat, va: nat, spec: PageSpec) {
    var p := PathOf(va);
    var e := EntryAt(mem, root, p);
    && e == PageEntry(e.frame, spec.flags) && WalkTo(mem, root, p) == PageWalk(p, e.frame, spec.flags)
    && e.frame in ram && ram[e.frame] == spec.bytes
  }

  predicate PageAddress(va: nat) {
    va % PAGE == 0 && TWO_30 <= va < TWO_48
  }

  ghost predicate HasPage(img: ImageMap, p: Path) {
    exists va {:trigger PathOf(va)} :: va in img && PathOf(va) == p
  }

  predicate Absent(mem: Memory, root: nat, p: Path) {
    p.Child? ==> EntryAt(mem, root, p) == ZERO && WalkTo(mem, root, p) == Fault
  }

  /** The space maps exactly the pages of the image, each to a frame with its bytes. */
  ghost predicate Held(mem: Memory, ram: map<nat, seq<Byte>>, root: nat, img: ImageMap) {
    && (forall va {:trigger PageHeld(mem, ram, root, va, img[va])} | va in img ::
          PageAddress(va) && img[va].flags.owned && PageHeld(mem, ram, root, va, img[va]))
    && (forall p {:trigger Absent(mem, root, p)} | Private(p) && Depth(p) == 4 && !HasPage(img, p) ::
         Absent(mem, root, p))
  }

  lemma {:induction false} OnePage(a: nat, b: nat)
    requires PageAddress(a) && PageAddress(b) && PathOf(a) == PathOf(b)
    ensures a == b
  {
    SamePage(a, b);
    PageOf(a);
    PageOf(b);
  }

  lemma {:induction false} PageOf(a: nat)
    requires PageAddress(a)
    ensures a == PAGE * (a / PAGE) && a / PAGE % TWO_36 == a / PAGE
  {
  }

  lemma {:induction false} PagePrivate(va: nat)
    requires PageAddress(va)
    ensures Private(PathOf(va)) && Depth(PathOf(va)) == 4 && (InSlot0(PathOf(va)) <==> va < TWO_39)
  {
    AddressRegions(va);
  }

  /** A page the image does not have is absent, and one it has is owned. */
  lemma {:induction false} PageThere(mem: Memory, ram: map<nat, seq<Byte>>, root: nat, img: ImageMap, va: nat)
    requires Held(mem, ram, root, img) && PageAddress(va)
    ensures OwnedPage(mem, root, PathOf(va)) <==> va in img
  {
    PagePrivate(va);
    if va in img {
      assert PageHeld(mem, ram, root, va, img[va]);
    } else {
      if HasPage(img, PathOf(va)) {
        var v :| v in img && PathOf(v) == PathOf(va);
        assert PageHeld(mem, ram, root, v, img[v]);
        OnePage(v, va);
      }
      assert Absent(mem, root, PathOf(va));
    }
  }

  /** One more page, or another in its place, or none if the mapping failed: the others are
      where they were, with the bytes they had. */
  lemma {:induction false} HeldAfter(mem: Memory, ram: map<nat, seq<Byte>>, root: nat, img: ImageMap,
                                     mem': Memory, va: nat, f: nat, spec: PageSpec, ok: bool, base: set<nat>,
                                     used: set<nat>)
    requires Held(mem, ram, root, img) && PageAddress(va) && spec.flags.owned
    requires Balanced(mem, root, base, used) && f !in used
    requires Mapped(mem, mem', root, PathOf(va), f, spec.flags, ok)
    requires forall r: Path {:trigger EntryAt(mem', root, r)} | Depth(r) == 4 && r != PathOf(va) ::
               EntryAt(mem', root, r) == EntryAt(mem, root, r)
    ensures Held(mem', ram[f := spec.bytes], root, if ok then img[va := spec] else img)
  {
    var img', ram' := if ok then img[va := spec] else img, ram[f := spec.bytes];
    forall v | v in img' ensures PageAddress(v) && img'[v].flags.owned && PageHeld(mem', ram', root, v, img'[v]) {
      if v != va {
        KeptPage(mem, ram, root, img, mem', va, f, spec, ok, base, used, v);
      } else if !ok {
        FrameInUse(mem, ram, root, img, base, used, va);
      }
    }
    forall p | Private(p) && Depth(p) == 4 && !HasPage(img', p) ensures Absent(mem', root, p) {
      KeptAbsent(mem, ram, root, img, mem', va, f, spec, ok, p);
    }
  }

  lemma {:induction false} KeptAbsent(mem: Memory, ram: map<nat, seq<Byte>>, root: nat, img: ImageMap,
                                      mem': Memory, va: nat, f: nat, spec: PageSpec, ok: bool, p: Path)
    requires Held(mem, ram, root, img)
    requires Mapped(mem, mem', root, PathOf(va), f, spec.flags, ok)
    requires forall r: Path {:trigger EntryAt(mem', root, r)} | Depth(r) == 4 && r != PathOf(va) ::
               EntryAt(mem', root, r) == EntryAt(mem, root, r)
    requires Private(p) && Depth(p) == 4 && !HasPage(if ok then img[va := spec] else img, p)
    ensures Absent(mem', root, p)
  {
    if ok { assert va in img[va := spec]; }
    assert ok ==> p != PathOf(va);
    assert !HasPage(img, p);
    assert Absent(mem, root, p);
    assert AgreeAt(mem, mem', root, PathOf(va)) || p != PathOf(va);
  }

  lemma {:induction false} KeptPage(mem: Memory, ram: map<nat, seq<Byte>>, root: nat, img: ImageMap,
                                    mem': Memory, va: nat, f: nat, spec: PageSpec, ok: bool, base: set<nat>,
                                    used: set<nat>, v: nat)
    requires Held(mem, ram, root, img) && PageAddress(va) && v in img && v != va
    requires Balanced(mem, root, base, used) && f !in used
    requires Mapped(mem, mem', root, PathOf(va), f, spec.flags, ok)
    requires forall r: Path {:trigger EntryAt(mem', root, r)} | Depth(r) == 4 && r != PathOf(va) ::
               EntryAt(mem', root, r) == EntryAt(mem, root, r)
    ensures PageAddress(v) && img[v].flags.owned && PageHeld(mem', ram[f := spec.bytes], root, v, img[v])
  {
    assert PageHeld(mem, ram, root, v, img[v]);
    OldFrame(mem, ram, root, img, va, base, used, v);
  }

  predicate Differ(mem: Memory, root: nat, a: nat, b: nat) {
    EntryAt(mem, root, PathOf(a)).frame != EntryAt(mem, root, PathOf(b)).frame
  }

  /** No two pages share a frame. */
  ghost predicate Unshared(mem: Memory, root: nat, img: ImageMap) {
    forall a, b {:trigger Differ(mem, root, a, b)} | a in img && b in img && a != b :: Differ(mem, root, a, b)
  }

  lemma {:induction false} UnsharedAfter(mem: Memory, ram: map<nat, seq<Byte>>, root: nat, img: ImageMap,
                                         mem': Memory, va: nat, f: nat, spec: PageSpec, ok: bool, base: set<nat>,
                                         used: set<nat>)
    requires Held(mem, ram, root, img) && Unshared(mem, root, img) && PageAddress(va) && spec.flags.owned
    requires Balanced(mem, root, base, used) && f !in used
    requires Mapped(mem, mem', root, PathOf(va), f, spec.flags, ok)
    requires forall r: Path {:trigger EntryAt(mem', root, r)} | Depth(r) == 4 && r != PathOf(va) ::
               EntryAt(mem', root, r) == EntryAt(mem, root, r)
    ensures Unshared(mem', root, if ok then img[va := spec] else img)
  {
    var img' := if ok then img[va := spec] else img;
    forall a, b | a in img' && b in img' && a != b ensures Differ(mem', root, a, b) {
      if a in img { FrameInUse(mem, ram, root, img, base, used, a); }
      if b in img { FrameInUse(mem, ram, root, img, base, used, b); }
      if a != va { OldFrame(mem, ram, root, img, va, base, used, a); }
      if b != va { OldFrame(mem, ram, root, img, va, base, used, b); }
      if a in img && b in img { assert Differ(mem, root, a, b); }
    }
  }

  lemma {:induction false} FrameInUse(mem: Memory, ram: map<nat, seq<Byte>>, root: nat, img: ImageMap,
                                      base: set<nat>, used: set<nat>, v: nat)
    requires Held(mem, ram, root, img) && v in img && Balanced(mem, root, base, used)
    ensures PageHeld(mem, ram, root, v, img[v]) && Depth(PathOf(v)) == 4 && EntryAt(mem, root, PathOf(v)).frame in used
  {
    assert PageHeld(mem, ram, root, v, img[v]);
    PagePrivate(v);
    var g := EntryAt(mem, root, PathOf(v)).frame;
    assert OwnsAt(mem, root, g, PathOf(v));
    assert Owns(mem, root, g);
    assert g in used;
  }

  lemma {:induction false} OldFrame(mem: Memory, ram: map<nat, seq<Byte>>, root: nat, img: ImageMap, va: nat,
                                    base: set<nat>, used: set<nat>, v: nat)
    requires Held(mem, ram, root, img) && PageAddress(va) && v in img && v != va && Balanced(mem, root, base, used)
    ensures PathOf(v) != PathOf(va) && Depth(PathOf(v)) == 4 && EntryAt(mem, root, PathOf(v)).frame in used
  {
    FrameInUse(mem, ram, root, img, base, used, v);
    if PathOf(v) == PathOf(va) { OnePage(v, va); }
  }

  // ----- the images

  function SpecOf(file: seq<Byte>, ph: Phdr, va: nat): PageSpec
    requires Fits(ph, |file|)
  {
    PageSpec(SegmentFlags(ph.flags), PageBytes(file, ph, va))
  }

  /** The first n pages of a segment. */
  function SegmentImage(file: seq<Byte>, ph: Phdr, n: nat): ImageMap
    requires Fits(ph, |file|)
    decreases n
  {
    if n == 0 then map[]
    else
      var va := Elf.PageStart(ph) + PAGE * (n - 1);
      SegmentImage(file, ph, n - 1)[va := SpecOf(file, ph, va)]
  }

  function PageCount(ph: Phdr): nat {
    if Elf.PageEnd(ph) < Elf.PageStart(ph) then 0 else (Elf.PageEnd(ph) - Elf.PageStart(ph)) / PAGE
  }

  predicate Fits(ph: Phdr, size: nat) {
    ph.offset + ph.filesz <= size
  }

  predicate AllFit(phs: seq<Phdr>, size: nat) {
    forall i | 0 <= i < |phs| && phs[i].kind == Elf.PT_LOAD :: Fits(phs[i], size)
  }

  /** The pages of all loadable segments. */
  function ImageOf(file: seq<Byte>, phs: seq<Phdr>): ImageMap
    requires AllFit(phs, |file|)
  {
    if phs == [] then map[]
    else
      var n := |phs| - 1;
      var before := ImageOf(file, phs[..n]);
      if phs[n].kind == Elf.PT_LOAD then before + SegmentImage(file, phs[n], PageCount(phs[n])) else before
  }

  /** The pages of a segment are the page addresses in its range, each with its own bytes. */
  lemma {:induction false} SegmentPages(file: seq<Byte>, ph: Phdr, n: nat, va: nat)
    requires Fits(ph, |file|)
    ensures var m := SegmentImage(file, ph, n);
            && (va in m <==> va % PAGE == 0 && Elf.PageStart(ph) <= va < Elf.PageStart(ph) + PAGE * n)
            && (va in m ==> m[va] == SpecOf(file, ph, va))
    decreases n
  {
    if n > 0 { SegmentPages(file, ph, n - 1, va); }
  }

  predicate InPages(ph: Phdr, va: nat) {
    va % PAGE == 0 && Elf.PageStart(ph) <= va < Elf.PageEnd(ph)
  }

  /** What the loader needs of a segment: its bytes in the file, its pages in user space. */
  predicate Loadable(ph: Phdr, size: nat) {
    && Fits(ph, size) && TWO_30 <= Elf.PageStart(ph) && Elf.PageEnd(ph) <= TWO_48
    && Elf.PageStart(ph) + PAGE * PageCount(ph) == Elf.PageEnd(ph)
  }

  lemma {:induction false} ValidLoadable(ph: Phdr, size: nat)
    requires Elf.SegmentOk(ph, size)
    ensures Loadable(ph, size)
  {
    assert Elf.PageStart(ph) % PAGE == 0 && Elf.PageEnd(ph) % PAGE == 0;
  }

  lemma {:induction false} WholeSegment(file: seq<Byte>, ph: Phdr, va: nat)
    requires Loadable(ph, |file|)
    ensures var m := SegmentImage(file, ph, PageCount(ph));
            (va in m <==> InPages(ph, va)) && (va in m ==> m[va] == SpecOf(file, ph, va))
    ensures InPages(ph, va) ==> PageAddress(va)
  {
    SegmentPages(file, ph, PageCount(ph), va);
  }

  /** A page is in the image exactly if some loadable segment covers it. */
  lemma {:induction false} ImagePages(file: seq<Byte>, phs: seq<Phdr>, va: nat)
    requires Elf.SegmentsOk(phs, |file|)
    ensures AllFit(phs, |file|)
    ensures va in ImageOf(file, phs) <==> exists i | 0 <= i < |phs| :: Covers(phs[i], va)
  {
    PrefixOk(phs, |file|, 0);
    if phs != [] {
      var n := |phs| - 1;
      PrefixOk(phs, |file|, n);
      ImagePages(file, phs[..n], va);
      assert forall i | 0 <= i < n :: phs[..n][i] == phs[i];
      LastSegment(file, phs, va);
    }
  }

  lemma {:induction false} LastSegment(file: seq<Byte>, phs: seq<Phdr>, va: nat)
    requires phs != [] && Elf.SegmentsOk(phs, |file|) && AllFit(phs, |file|) && AllFit(phs[..|phs| - 1], |file|)
    ensures var n := |phs| - 1;
            if Covers(phs[n], va) then va in ImageOf(file, phs) && ImageOf(file, phs)[va] == SpecOf(file, phs[n], va)
            else va in ImageOf(file, phs) <==> va in ImageOf(file, phs[..n])
    ensures var n := |phs| - 1;
            !Covers(phs[n], va) && va in ImageOf(file, phs) ==> ImageOf(file, phs)[va] == ImageOf(file, phs[..n])[va]
  {
    var n := |phs| - 1;
    assert Elf.HeaderKindOk(phs[n], |file|);
    if phs[n].kind == Elf.PT_LOAD {
      ValidLoadable(phs[n], |file|);
      WholeSegment(file, phs[n], va);
    }
  }

  /** The segment that covers a page is the only one, and decides its rights and its bytes. */
  lemma {:induction false} ImageValue(file: seq<Byte>, phs: seq<Phdr>, va: nat, i: nat)
    requires Elf.SegmentsOk(phs, |file|) && AllFit(phs, |file|) && i < |phs| && Covers(phs[i], va)
    ensures va in ImageOf(file, phs) && ImageOf(file, phs)[va] == SpecOf(file, phs[i], va)
    decreases |phs|
  {
    var n := |phs| - 1;
    PrefixOk(phs, |file|, n);
    LastSegment(file, phs, va);
    if i < n {
      assert Elf.ApartAt(phs, i, n);
      ImageValue(file, phs[..n], va, i);
    }
  }

  predicate Covers(ph: Phdr, va: nat) {
    ph.kind == Elf.PT_LOAD && InPages(ph, va)
  }

  lemma {:induction false} PrefixOk(phs: seq<Phdr>, size: nat, n: nat)
    requires Elf.SegmentsOk(phs, size) && n <= |phs|
    ensures Elf.SegmentsOk(phs[..n], size) && AllFit(phs, size) && AllFit(phs[..n], size)
  {
    forall i, j ensures Elf.ApartAt(phs[..n], i, j) { assert Elf.ApartAt(phs, i, j); }
    forall i | 0 <= i < |phs| && phs[i].kind == Elf.PT_LOAD ensures Fits(phs[i], size) {
      assert Elf.HeaderKindOk(phs[i], size);
    }
  }

  // ----- the stack

  const STACK_FLAGS := Flags(true, true, true, false, true)

  /** The first n pages of the stack window. */
  function StackImage(win: seq<Byte>, n: nat): ImageMap
    requires PAGE * n <= |win|
    decreases n
  {
    if n == 0 then map[]
    else
      var va := InitialStack.STACK_VIRT + PAGE * (n - 1);
      StackImage(win, n - 1)[va := PageSpec(STACK_FLAGS, win[PAGE * (n - 1)..PAGE * n])]
  }

  lemma {:induction false} StackPages(win: seq<Byte>, n: nat, va: nat)
    requires PAGE * n <= |win|
    ensures va in StackImage(win, n) <==> va % PAGE == 0
                                          && InitialStack.STACK_VIRT <= va < InitialStack.STACK_VIRT + PAGE * n
    ensures va in StackImage(win, n) ==> StackImage(win, n)[va].flags == STACK_FLAGS
    ensures va in StackImage(win, n) ==>
              var k := va - InitialStack.STACK_VIRT;
              k + PAGE <= |win| && StackImage(win, n)[va].bytes == win[k..k + PAGE]
    decreases n
  {
    if n > 0 { StackPages(win, n - 1, va); }
  }

  predicate InStack(a: nat) {
    InitialStack.STACK_VIRT <= a < InitialStack.STACK_VIRT + InitialStack.STACK_SIZE
  }

  /** No segment has a page in the stack window. */
  predicate AvoidsStack(phs: seq<Phdr>) {
    forall i | 0 <= i < |phs| && phs[i].kind == Elf.PT_LOAD ::
      Elf.PageEnd(phs[i]) <= InitialStack.STACK_VIRT
      || InitialStack.STACK_VIRT + InitialStack.STACK_SIZE <= Elf.PageStart(phs[i])
  }

  /** An executable of one segment, loaded where the stack will be: the bytes that are not zero. */
  function StackFileByte(i: nat): Byte {
    match i
    case 0 => 0x7F case 1 => 0x45 case 2 => 0x4C case 3 => 0x46 case 4 => 2 case 5 => 1
    case 16 => 2 case 18 => 62 case 25 => 0xF0 case 26 => 0xFF case 27 => 0x7F case 32 => 64 case 54 => 56 case 56 => 1
    case 64 => 1 case 68 => 5 case 81 => 0xF0 case 82 => 0xFF case 83 => 0x7F case 96 => 120 case 104 => 120
    case _ => 0
  }

  predicate IsStackFile(file: seq<Byte>) {
    |file| == 120 && forall i | 0 <= i < 120 :: file[i] == StackFileByte(i)
  }

  /** The validator accepts a file whose segment lies in the stack window. */
  lemma {:induction false} AcceptedOverStack() returns (file: seq<Byte>)
    ensures Elf.Acceptable(file) && !AvoidsStack(Elf.Phdrs(file)) && BelowSlot1(Elf.Phdrs(file))
  {
    file := seq<Byte>(120, (i: nat) => StackFileByte(i));
    StackFileAccepted(file);
  }

  lemma {:induction false} StackFileAccepted(file: seq<Byte>)
    requires IsStackFile(file)
    ensures Elf.Acceptable(file) && !AvoidsStack(Elf.Phdrs(file)) && BelowSlot1(Elf.Phdrs(file))
  {
    var ph := Elf.Phdr(Elf.PT_LOAD, 5, 0, InitialStack.STACK_VIRT, 120, 120, 0);
    StackFileHeader(file);
    StackFilePhdr(file);
    OverStack(ph);
    assert Elf.Phdrs(file)[0] == ph;
    assert Elf.Contains(Elf.Phdrs(file)[0], Elf.Entry(file));
  }

  lemma {:induction false} OverStack(ph: Phdr)
    requires ph == Elf.Phdr(Elf.PT_LOAD, 5, 0, InitialStack.STACK_VIRT, 120, 120, 0)
    ensures Elf.SegmentOk(ph, 120) && !AvoidsStack([ph]) && BelowSlot1([ph])
  {
    assert [ph][0] == ph;
  }

  lemma {:induction false} StackFileHeader(file: seq<Byte>)
    requires IsStackFile(file)
    ensures Elf.HeaderOk(file) && Elf.PhNum(file) == 1 && Elf.PhOff(file) == 64
            && Elf.Entry(file) == InitialStack.STACK_VIRT
  {
    Bytes.Le2(file, 16);
    Bytes.Le2(file, 18);
    Bytes.Le2(file, 54);
    Bytes.Le2(file, 56);
    Le8(file, 24);
    Le8(file, 32);
    assert file[..4] == [0x7F, 0x45, 0x4C, 0x46];
  }

  lemma {:induction false} StackFilePhdr(file: seq<Byte>)
    requires IsStackFile(file)
    ensures Elf.PhdrAt(file, 64) == Elf.Phdr(Elf.PT_LOAD, 5, 0, InitialStack.STACK_VIRT, 120, 120, 0)
  {
    Bytes.Le4(file, 64);
    Bytes.Le4(file, 68);
    Le8(file, 72);
    Le8(file, 80);
    Le8(file, 96);
    Le8(file, 104);
    Le8(file, 112);
  }

  /** A number of eight bytes that fits into four. */
  lemma {:induction false} Le8(data: seq<Byte>, at: nat)
    requires at + 8 <= |data| && forall i | at + 4 <= i < at + 8 :: data[i] == 0
    ensures Bytes.Le(data, at, 8) == data[at] as int + data[at + 1] as int * 0x100
                                     + (data[at + 2] as int + data[at + 3] as int * 0x100) * 0x1_0000
  {
    Bytes.Le4(data, at + 4);
    assert Bytes.Le(data, at + 3, 5) == data[at + 3];
    assert Bytes.Le(data, at + 2, 6) == data[at + 2] + 0x100 * Bytes.Le(data, at + 3, 5);
    assert Bytes.Le(data, at + 1, 7) == data[at + 1] + 0x100 * Bytes.Le(data, at + 2, 6);
  }

  /** Every segment ends below 2^39, within PML4 slot 0. */
  predicate BelowSlot1(phs: seq<Phdr>) {
    forall i | 0 <= i < |phs| && phs[i].kind == Elf.PT_LOAD :: Elf.PageEnd(phs[i]) <= TWO_39
  }

  // ----- the loaded bytes

  /** An address on a page of the image translates to the page's bytes, with its rights. */
  lemma {:induction false} HeldByte(mem: Memory, ram: map<nat, seq<Byte>>, root: nat, img: ImageMap, va: nat, a: nat)
    requires Held(mem, ram, root, img) && va in img && va <= a < va + PAGE
    ensures var w := WalkTo(mem, root, PathOf(a));
            && w.Page? && w.user == img[va].flags.user && w.writable == img[va].flags.writable
            && w.executable == !img[va].flags.nx
            && w.frame in ram && ram[w.frame] == img[va].bytes
  {
    assert PageHeld(mem, ram, root, va, img[va]);
    InPage(va, a);
    SamePage(a, va);
  }

  lemma {:induction false} InPage(va: nat, a: nat)
    requires va % PAGE == 0 && va <= a < va + PAGE
    ensures a / PAGE == va / PAGE && a / PAGE * PAGE == va && a % PAGE == a - va
  {
  }

  /** Every address of every segment translates to memory holding the file's byte, or zero beyond
      p_filesz, with the rights the segment asks for; except where the stack lies over it. */
  lemma {:induction false} LoadedByte(mem: Memory, ram: map<nat, seq<Byte>>, root: nat, file: seq<Byte>, phs: seq<Phdr>,
                                      win: seq<Byte>, i: nat, a: nat)
    requires Elf.SegmentsOk(phs, |file|) && AllFit(phs, |file|) && |win| == InitialStack.STACK_SIZE
    requires Held(mem, ram, root, ImageOf(file, phs) + StackImage(win, 4))
    requires i < |phs| && phs[i].kind == Elf.PT_LOAD && Elf.PageStart(phs[i]) <= a < Elf.PageEnd(phs[i]) && !InStack(a)
    ensures var w := WalkTo(mem, root, PathOf(a));
            && w.Page? && w.user && w.writable == Elf.Writable(phs[i].flags)
            && w.executable == (Elf.Executable(phs[i].flags) && !Elf.Writable(phs[i].flags))
            && w.frame in ram && |ram[w.frame]| == PAGE
            && ram[w.frame][a % PAGE] == if phs[i].vaddr <= a < phs[i].vaddr + phs[i].filesz
                                         then file[phs[i].offset + (a - phs[i].vaddr)] else 0
  {
    var img: ImageMap := ImageOf(file, phs) + StackImage(win, 4);
    var va := a / PAGE * PAGE;
    assert Elf.HeaderKindOk(phs[i], |file|);
    InPage(va, a);
    InSegmentPages(phs[i], a);
    ImageValue(file, phs, va, i);
    StackPages(win, 4, va);
    assert img[va] == SpecOf(file, phs[i], va);
    HeldByte(mem, ram, root, img, va, a);
  }

  /** Every address of the stack window translates to writable memory, not executable, holding the
      byte prepared for it, also where a segment has pages. */
  lemma {:induction false} StackByte(mem: Memory, ram: map<nat, seq<Byte>>, root: nat, img: ImageMap, win: seq<Byte>,
                                     a: nat)
    requires |win| == InitialStack.STACK_SIZE && Held(mem, ram, root, img + StackImage(win, 4)) && InStack(a)
    ensures var w := WalkTo(mem, root, PathOf(a));
            && w.Page? && w.user && w.writable && !w.executable
            && w.frame in ram && |ram[w.frame]| == PAGE && ram[w.frame][a % PAGE] == win[a - InitialStack.STACK_VIRT]
  {
    var all: ImageMap := img + StackImage(win, 4);
    var va := a / PAGE * PAGE;
    InPage(va, a);
    StackPages(win, 4, va);
    assert all[va] == StackImage(win, 4)[va];
    HeldByte(mem, ram, root, all, va, a);
  }

  lemma {:induction false} InSegmentPages(ph: Phdr, a: nat)
    requires Elf.PageStart(ph) <= a < Elf.PageEnd(ph)
    ensures InPages(ph, a / PAGE * PAGE)
  {
    assert Elf.PageStart(ph) % PAGE == 0 && Elf.PageEnd(ph) % PAGE == 0;
  }

  /** The entry point of an accepted file is mapped for the process. */
  lemma {:induction false} EntryMapped(mem: Memory, ram: map<nat, seq<Byte>>, root: nat, file: seq<Byte>,
                                       win: seq<Byte>)
    requires Elf.Acceptable(file) && AllFit(Elf.Phdrs(file), |file|)
    requires |win| == InitialStack.STACK_SIZE
             && Held(mem, ram, root, ImageOf(file, Elf.Phdrs(file)) + StackImage(win, 4))
    ensures WalkTo(mem, root, PathOf(Elf.Entry(file))).Page? && WalkTo(mem, root, PathOf(Elf.Entry(file))).user
  {
    var phs, a := Elf.Phdrs(file), Elf.Entry(file);
    var i :| 0 <= i < |phs| && Elf.Contains(phs[i], a);
    if InStack(a) {
      StackByte(mem, ram, root, ImageOf(file, phs), win, a);
    } else {
      LoadedByte(mem, ram, root, file, phs, win, i, a);
    }
  }
}

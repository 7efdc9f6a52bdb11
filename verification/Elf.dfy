/** elf::validate of kernel/elf.cpp: the checks of the validator, and what they add up to. */
module Elf {
  import opened Bytes

  const TWO_64: nat := 0x1_0000_0000_0000_0000
  const U64_MAX: nat := TWO_64 - 1
  const PAGE_SIZE: nat := 4096
  const EHDR_SIZE: nat := 64
  const PHDR_SIZE: nat := 56
  const ET_EXEC: nat := 2
  const EM_X86_64: nat := 62
  const PT_NULL: nat := 0
  const PT_LOAD: nat := 1
  const PT_GNU_STACK: nat := 0x6474e551
  const USER_SPACE_MIN: nat := 0x4000_0000
  const USER_SPACE_MAX: nat := 0x8000_0000_0000
  const MAX_LOAD_SEGMENTS: nat := 16

  datatype Phdr = Phdr(kind: nat, flags: nat, offset: nat, vaddr: nat, filesz: nat, memsz: nat, align: nat)

  function PhdrAt(file: seq<Byte>, at: nat): Phdr
    requires at + PHDR_SIZE <= |file|
  {
    Phdr(Le(file, at, 4), Le(file, at + 4, 4), Le(file, at + 8, 8), Le(file, at + 16, 8),
         Le(file, at + 32, 8), Le(file, at + 40, 8), Le(file, at + 48, 8))
  }

  function Entry(file: seq<Byte>): nat
    requires |file| >= EHDR_SIZE
  {
    Le(file, 24, 8)
  }

  function PhOff(file: seq<Byte>): nat
    requires |file| >= EHDR_SIZE
  {
    Le(file, 32, 8)
  }

  function PhNum(file: seq<Byte>): nat
    requires |file| >= EHDR_SIZE
  {
    Le(file, 56, 2)
  }

  // ----- what a valid file is

  predicate IdentOk(file: seq<Byte>)
    requires |file| >= EHDR_SIZE
  {
    && file[..4] == [0x7F, 0x45, 0x4C, 0x46] && file[4] == 2 && file[5] == 1
    && Le(file, 16, 2) == ET_EXEC && Le(file, 18, 2) == EM_X86_64
  }

  predicate HeaderOk(file: seq<Byte>) {
    && |file| >= EHDR_SIZE && IdentOk(file)
    && 0 < PhNum(file) <= MAX_LOAD_SEGMENTS && Le(file, 54, 2) == PHDR_SIZE
    && PhOff(file) + PhNum(file) * PHDR_SIZE <= |file|
  }

  /** The program headers of a file with a good header. */
  function Phdrs(file: seq<Byte>): (r: seq<Phdr>)
    requires HeaderOk(file)
    ensures |r| == PhNum(file)
  {
    seq(PhNum(file), (i: nat) requires i < PhNum(file) => PhdrAt(file, PhOff(file) + i * PHDR_SIZE))
  }

  predicate Writable(flags: nat) {
    flags / 2 % 2 == 1
  }

  predicate Executable(flags: nat) {
    flags % 2 == 1
  }

  predicate PowerOfTwo(x: nat) {
    x == 1 || (x > 0 && x % 2 == 0 && PowerOfTwo(x / 2))
  }

  function PageStart(ph: Phdr): nat {
    ph.vaddr / PAGE_SIZE * PAGE_SIZE
  }

  function PageEnd(ph: Phdr): nat {
    (ph.vaddr + ph.memsz + PAGE_SIZE - 1) / PAGE_SIZE * PAGE_SIZE
  }

  /** A segment inside the file and inside user space, never writable and executable at once. */
  predicate SegmentOk(ph: Phdr, size: nat) {
    && 0 < ph.flags < 8 && !(Writable(ph.flags) && Executable(ph.flags))
    && ph.filesz <= ph.memsz && ph.offset + ph.filesz <= size
    && USER_SPACE_MIN <= ph.vaddr && ph.vaddr + ph.memsz <= USER_SPACE_MAX
    && (ph.align != 0 ==> PowerOfTwo(ph.align) && ph.vaddr % ph.align == ph.offset % ph.align)
    && PageStart(ph) < PageEnd(ph)
  }

  predicate HeaderKindOk(ph: Phdr, size: nat) {
    ph.kind == PT_NULL || ph.kind == PT_GNU_STACK || (ph.kind == PT_LOAD && SegmentOk(ph, size))
  }

  /** No page belongs to both segments. */
  predicate PagesDisjoint(a: Phdr, b: Phdr) {
    PageEnd(a) <= PageStart(b) || PageEnd(b) <= PageStart(a)
  }

  predicate Contains(ph: Phdr, addr: nat) {
    ph.kind == PT_LOAD && ph.vaddr <= addr < ph.vaddr + ph.memsz
  }

  ghost predicate ApartAt(phs: seq<Phdr>, i: int, j: int) {
    0 <= i < j < |phs| && phs[i].kind == PT_LOAD && phs[j].kind == PT_LOAD ==> PagesDisjoint(phs[i], phs[j])
  }

  ghost predicate SegmentsOk(phs: seq<Phdr>, size: nat) {
    && (forall i | 0 <= i < |phs| :: HeaderKindOk(phs[i], size))
    && (forall i, j {:trigger ApartAt(phs, i, j)} :: ApartAt(phs, i, j))
  }

  ghost predicate Acceptable(file: seq<Byte>) {
    && HeaderOk(file) && SegmentsOk(Phdrs(file), |file|)
    && exists i | 0 <= i < PhNum(file) :: Contains(Phdrs(file)[i], Entry(file))
  }

  // ----- the validator

  function AddOverflows(a: nat, b: nat): bool {
    b > U64_MAX - a
  }

  /** The tests on a single PT_LOAD header, in the order of the source. */
  method CheckSegment(ph: Phdr, size: nat) returns (ok: bool)
    requires size < TWO_64
    ensures ok <==> SegmentOk(ph, size)
  {
    if ph.flags == 0 || ph.flags / 8 != 0 { return false; }
    if Writable(ph.flags) && Executable(ph.flags) { return false; }
    if ph.memsz < ph.filesz { return false; }
    if AddOverflows(ph.offset, ph.filesz) || ph.offset + ph.filesz > size { return false; }
    if AddOverflows(ph.vaddr, ph.memsz) { return false; }
    var end := ph.vaddr + ph.memsz;
    if ph.vaddr < USER_SPACE_MIN || end > USER_SPACE_MAX { return false; }
    if ph.align != 0 {
      PowerTrick(ph.align);
      if And(ph.align, ph.align - 1) != 0 { return false; }
      if ph.vaddr % ph.align != ph.offset % ph.align { return false; }
    }
    ok := PageStart(ph) < PageEnd(ph);
  }

  /** The loop over the program headers: each is checked by itself and against the page ranges
      of the segments before it. */
  method CheckSegments(phs: seq<Phdr>, size: nat) returns (ok: bool, count: nat)
    requires |phs| <= MAX_LOAD_SEGMENTS && size < TWO_64
    ensures ok <==> SegmentsOk(phs, size)
    ensures ok ==> (count == 0 <==> forall i | 0 <= i < |phs| :: phs[i].kind != PT_LOAD)
  {
    var loadStart := new nat[MAX_LOAD_SEGMENTS];
    var loadEnd := new nat[MAX_LOAD_SEGMENTS];
    ghost var which: seq<nat> := [];
    count := 0;
    for i := 0 to |phs|
      invariant count == |which| <= i && SegmentsOk(phs[..i], size) && Recorded(phs[..i], which)
      invariant forall j | 0 <= j < count ::
                  loadStart[j] == PageStart(phs[which[j]]) && loadEnd[j] == PageEnd(phs[which[j]])
    {
      var ph := phs[i];
      assert phs[..i + 1] == phs[..i] + [ph];
      if ph.kind == PT_NULL || ph.kind == PT_GNU_STACK {
        SegmentAdded(phs[..i], ph, size, which);
        continue;
      }
      if ph.kind != PT_LOAD {
        BadHeader(phs, size, i);
        return false, count;
      }
      var good := CheckSegment(ph, size);
      if !good {
        BadHeader(phs, size, i);
        return false, count;
      }
      for j := 0 to count
        invariant forall k | 0 <= k < j :: PagesDisjoint(phs[which[k]], ph)
      {
        if PageStart(ph) < loadEnd[j] && loadStart[j] < PageEnd(ph) {
          Overlap(phs, size, which[j], i);
          return false, count;
        }
      }
      SegmentAdded(phs[..i], ph, size, which);
      loadStart[count], loadEnd[count] := PageStart(ph), PageEnd(ph);
      which := which + [i];
      count := count + 1;
    }
    assert phs[..|phs|] == phs;
    NoneRecorded(phs, which);
    ok := true;
  }

  /** `which` lists the loadable segments. */
  ghost predicate Recorded(phs: seq<Phdr>, which: seq<nat>) {
    && (forall j | 0 <= j < |which| :: which[j] < |phs| && phs[which[j]].kind == PT_LOAD)
    && (forall i: nat {:trigger i in which} | i < |phs| && phs[i].kind == PT_LOAD :: i in which)
  }

  lemma {:induction false} NoneRecorded(phs: seq<Phdr>, which: seq<nat>)
    requires Recorded(phs, which)
    ensures which == [] <==> forall i | 0 <= i < |phs| :: phs[i].kind != PT_LOAD
  {
    if which != [] { assert phs[which[0]].kind == PT_LOAD; }
    if i :| 0 <= i < |phs| && phs[i].kind == PT_LOAD { assert i in which; }
  }

  lemma {:induction false} SegmentAdded(phs: seq<Phdr>, ph: Phdr, size: nat, which: seq<nat>)
    requires SegmentsOk(phs, size) && Recorded(phs, which) && HeaderKindOk(ph, size)
    requires ph.kind == PT_LOAD ==> forall k | 0 <= k < |which| :: PagesDisjoint(phs[which[k]], ph)
    ensures SegmentsOk(phs + [ph], size)
    ensures Recorded(phs + [ph], if ph.kind == PT_LOAD then which + [|phs|] else which)
  {
    var more := phs + [ph];
    forall i, j ensures ApartAt(more, i, j) {
      assert ApartAt(phs, i, j);
      if 0 <= i < j == |phs| && more[i].kind == PT_LOAD && ph.kind == PT_LOAD {
        DisjointFromAll(phs, ph, which, i);
      }
    }
    AddRecord(phs, ph, which);
  }

  lemma {:induction false} DisjointFromAll(phs: seq<Phdr>, ph: Phdr, which: seq<nat>, i: nat)
    requires Recorded(phs, which) && i < |phs| && phs[i].kind == PT_LOAD
    requires forall k | 0 <= k < |which| :: PagesDisjoint(phs[which[k]], ph)
    ensures PagesDisjoint(phs[i], ph)
  {
    assert i in which;
  }

  lemma {:induction false} AddRecord(phs: seq<Phdr>, ph: Phdr, which: seq<nat>)
    requires Recorded(phs, which)
    ensures Recorded(phs + [ph], if ph.kind == PT_LOAD then which + [|phs|] else which)
  {
    var which' := if ph.kind == PT_LOAD then which + [|phs|] else which;
    forall i: nat | i < |phs + [ph]| && (phs + [ph])[i].kind == PT_LOAD ensures i in which' {
      if i < |phs| { assert i in which; } else { assert which'[|which|] == i; }
    }
  }

  lemma {:induction false} BadHeader(phs: seq<Phdr>, size: nat, i: nat)
    requires i < |phs| && !HeaderKindOk(phs[i], size)
    ensures !SegmentsOk(phs, size)
  {
  }

  lemma {:induction false} Overlap(phs: seq<Phdr>, size: nat, i: nat, j: nat)
    requires i < j < |phs| && phs[i].kind == PT_LOAD && phs[j].kind == PT_LOAD && !PagesDisjoint(phs[i], phs[j])
    ensures !SegmentsOk(phs, size)
  {
    assert !ApartAt(phs, i, j);
  }

  method FindEntry(phs: seq<Phdr>, entry: nat) returns (found: bool)
    ensures found <==> exists i | 0 <= i < |phs| :: Contains(phs[i], entry)
  {
    for i := 0 to |phs|
      invariant forall j | 0 <= j < i :: !Contains(phs[j], entry)
    {
      if Contains(phs[i], entry) { return true; }
    }
    found := false;
  }

  /** Accepted exactly if the file is an executable whose segments lie in the file and in user
      space, page-disjoint, none both writable and executable, with the entry in one of them. */
  method Validate(file: seq<Byte>) returns (ok: bool)
    requires |file| < TWO_64
    ensures ok <==> Acceptable(file)
  {
    if |file| < EHDR_SIZE || !IdentOk(file) { return false; }
    if PhNum(file) == 0 || PhNum(file) > MAX_LOAD_SEGMENTS || Le(file, 54, 2) != PHDR_SIZE { return false; }
    var tableBytes := PhNum(file) * PHDR_SIZE;
    if AddOverflows(PhOff(file), tableBytes) || PhOff(file) + tableBytes > |file| { return false; }
    var phs := Phdrs(file);
    var good, count := CheckSegments(phs, |file|);
    if !good || count == 0 { return false; }
    ok := FindEntry(phs, Entry(file));
  }

  // ----- is_power_of_two

  /** The bitwise conjunction of two numbers. */
  function And(x: nat, y: nat): nat {
    if x == 0 then 0 else (if x % 2 == 1 && y % 2 == 1 then 1 else 0) + 2 * And(x / 2, y / 2)
  }

  lemma {:induction false} AndSelf(x: nat)
    ensures And(x, x) == x
  {
    if x > 0 { AndSelf(x / 2); }
  }

  /** x & (x - 1) is zero exactly for the powers of two. */
  lemma {:induction false} PowerTrick(x: nat)
    ensures x != 0 && And(x, x - 1) == 0 <==> PowerOfTwo(x)
  {
    if x % 2 == 1 {
      assert (x - 1) / 2 == x / 2;
      AndSelf(x / 2);
    } else if x > 0 {
      assert (x - 1) / 2 == x / 2 - 1;
      PowerTrick(x / 2);
    }
  }
}

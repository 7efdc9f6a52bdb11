/** The packed structures of kernel/elf.hpp written out field by field, and that the validator reads
    them as they were written. */
module ElfLayout {
  import opened Bytes
  import opened PackedFields
  import opened Elf

  // ----- Elf64_Phdr

  datatype ProgramHeader = ProgramHeader(kind: nat, flags: nat, offset: nat, vaddr: nat, paddr: nat, filesz: nat,
                                         memsz: nat, align: nat)

  function PhdrTail(p: ProgramHeader): Fields {
    Field(p.paddr, 8, Field(p.filesz, 8, Field(p.memsz, 8, Field(p.align, 8, End))))
  }

  function PhdrFields(p: ProgramHeader): Fields {
    Field(p.kind, 4, Field(p.flags, 4, Field(p.offset, 8, Field(p.vaddr, 8, PhdrTail(p)))))
  }

  /** What the loader takes from a header. */
  function Read(p: ProgramHeader): Phdr {
    Phdr(p.kind, p.flags, p.offset, p.vaddr, p.filesz, p.memsz, p.align)
  }

  lemma {:induction false} PhdrWidth(p: ProgramHeader)
    ensures Width(PhdrFields(p)) == PHDR_SIZE
  {
    var f, t := PhdrFields(p), PhdrTail(p);
    assert Width(t.rest.rest.rest) == 8;
    assert Width(t.rest) == 24;
    assert Width(f.rest.rest.rest) == 40;
    assert Width(f.rest) == 52;
  }

  lemma {:induction false} TailReads(file: seq<Byte>, at: nat, p: ProgramHeader)
    requires Reads(file, at, PhdrTail(p))
    ensures at + 32 <= |file| && Le(file, at + 8, 8) == p.filesz && Le(file, at + 16, 8) == p.memsz
            && Le(file, at + 24, 8) == p.align
  {
    var fs := PhdrTail(p);
    assert Reads(file, at + 8, fs.rest);
    assert Reads(file, at + 16, fs.rest.rest);
    assert Reads(file, at + 24, fs.rest.rest.rest);
  }

  /** A program header is read as it was written, wherever it lies. */
  lemma {:induction false} PhdrRound(file: seq<Byte>, at: nat, p: ProgramHeader)
    requires Fit(PhdrFields(p)) && at + PHDR_SIZE <= |file| && file[at..at + PHDR_SIZE] == Packed(PhdrFields(p))
    ensures PhdrAt(file, at) == Read(p)
  {
    var fs := PhdrFields(p);
    PhdrWidth(p);
    PackedReads(file, at, fs);
    assert Reads(file, at + 4, fs.rest);
    assert Reads(file, at + 8, fs.rest.rest);
    assert Reads(file, at + 16, fs.rest.rest.rest);
    assert Reads(file, at + 24, PhdrTail(p));
    TailReads(file, at + 24, p);
  }

  // ----- Elf64_Ehdr

  datatype FileHeader = FileHeader(ident: seq<Byte>, kind: nat, machine: nat, version: nat, entry: nat, phoff: nat,
                                   shoff: nat, flags: nat, ehsize: nat, phentsize: nat, phnum: nat, shentsize: nat,
                                   shnum: nat, shstrndx: nat)

  function EhdrTail(h: FileHeader): Fields {
    Field(h.flags, 4, Field(h.ehsize, 2, Field(h.phentsize, 2, Field(h.phnum, 2,
      Field(h.shentsize, 2, Field(h.shnum, 2, Field(h.shstrndx, 2, End)))))))
  }

  function EhdrFields(h: FileHeader): Fields {
    Field(h.kind, 2, Field(h.machine, 2, Field(h.version, 4, Field(h.entry, 8,
      Field(h.phoff, 8, Field(h.shoff, 8, EhdrTail(h)))))))
  }

  predicate IsHeader(file: seq<Byte>, h: FileHeader) {
    && |h.ident| == 16 && Fit(EhdrFields(h)) && |file| >= EHDR_SIZE
    && file[..EHDR_SIZE] == h.ident + Packed(EhdrFields(h))
  }

  lemma {:induction false} EhdrWidth(h: FileHeader)
    ensures Width(EhdrFields(h)) == EHDR_SIZE - 16
  {
    var f, t := EhdrFields(h), EhdrTail(h);
    assert Width(t.rest.rest.rest.rest.rest.rest) == 2;
    assert Width(t.rest.rest.rest.rest) == 6;
    assert Width(t.rest.rest) == 10;
    assert Width(t) == 16;
    assert Width(f.rest.rest.rest.rest) == 32;
    assert Width(f.rest.rest) == 44;
  }

  lemma {:induction false} NumbersRead(file: seq<Byte>, at: nat, h: FileHeader)
    requires Reads(file, at, EhdrTail(h))
    ensures at + 10 <= |file| && Le(file, at + 6, 2) == h.phentsize && Le(file, at + 8, 2) == h.phnum
  {
    var fs := EhdrTail(h);
    assert Reads(file, at + 4, fs.rest);
    assert Reads(file, at + 6, fs.rest.rest);
    assert Reads(file, at + 8, fs.rest.rest.rest);
  }

  lemma {:induction false} OffsetsRead(file: seq<Byte>, h: FileHeader)
    requires Reads(file, 16, EhdrFields(h))
    ensures |file| >= 48 && Le(file, 16, 2) == h.kind && Le(file, 18, 2) == h.machine
    ensures Le(file, 24, 8) == h.entry && Le(file, 32, 8) == h.phoff && Reads(file, 48, EhdrTail(h))
  {
    var fs := EhdrFields(h);
    assert Reads(file, 18, fs.rest);
    assert Reads(file, 20, fs.rest.rest);
    assert Reads(file, 24, fs.rest.rest.rest);
    assert Reads(file, 32, fs.rest.rest.rest.rest);
    assert Reads(file, 40, fs.rest.rest.rest.rest.rest);
  }

  /** The file header is read as it was written. */
  lemma {:induction false} EhdrRound(file: seq<Byte>, h: FileHeader)
    requires IsHeader(file, h)
    ensures Entry(file) == h.entry && PhOff(file) == h.phoff && PhNum(file) == h.phnum
    ensures Le(file, 16, 2) == h.kind && Le(file, 18, 2) == h.machine && Le(file, 54, 2) == h.phentsize
    ensures forall i | 0 <= i < 16 :: file[i] == h.ident[i]
  {
    EhdrWidth(h);
    assert file[16..EHDR_SIZE] == file[..EHDR_SIZE][16..] == Packed(EhdrFields(h));
    PackedReads(file, 16, EhdrFields(h));
    OffsetsRead(file, h);
    NumbersRead(file, 48, h);
    forall i | 0 <= i < 16 ensures file[i] == h.ident[i] { assert file[..EHDR_SIZE][i] == h.ident[i]; }
  }

  // ----- what the checks on segments amount to

  ghost predicate IsPower(x: nat) {
    exists k: nat :: x == Pow2(k)
  }

  function Pow2(k: nat): nat {
    if k == 0 then 1 else 2 * Pow2(k - 1)
  }

  lemma {:induction false} PowersOfTwo(x: nat)
    ensures PowerOfTwo(x) <==> IsPower(x)
  {
    if PowerOfTwo(x) && x != 1 {
      PowersOfTwo(x / 2);
      var k: nat :| x / 2 == Pow2(k);
      assert x == Pow2(k + 1);
    } else if x == 1 {
      assert x == Pow2(0);
    }
    if k: nat :| x == Pow2(k) { PowIs(k); }
  }

  lemma {:induction false} PowIs(k: nat)
    ensures PowerOfTwo(Pow2(k)) && Pow2(k) > 0
  {
    if k > 0 { PowIs(k - 1); }
  }

  /** A segment is good exactly if it is readable, writable or executable but not the last two, lies
      in the file and between 1 GiB and 2^47, its place in the file and its address agree modulo its
      alignment, a power of two, and it touches a page. */
  lemma {:induction false} SegmentExactly(p: ProgramHeader, size: nat)
    ensures SegmentOk(Read(p), size) <==>
            && p.flags in {1, 2, 4, 5, 6} && p.filesz <= p.memsz && p.offset + p.filesz <= size
            && 0x4000_0000 <= p.vaddr && p.vaddr + p.memsz <= 0x8000_0000_0000
            && (p.align != 0 ==> IsPower(p.align) && p.vaddr % p.align == p.offset % p.align)
            && (p.memsz > 0 || p.vaddr % 4096 != 0)
  {
    PowersOfTwo(p.align);
    Touched(p.vaddr, p.memsz);
  }

  lemma {:induction false} Touched(vaddr: nat, memsz: nat)
    ensures vaddr / 4096 * 4096 < (vaddr + memsz + 4095) / 4096 * 4096 <==> memsz > 0 || vaddr % 4096 != 0
  {
  }

  /** Page number n holds an address of the segment, or the one it starts at. */
  predicate Touches(p: ProgramHeader, n: nat) {
    p.vaddr / 4096 <= n && 4096 * n < p.vaddr + p.memsz
  }

  /** Two segments that touch pages are kept apart exactly if they have no page in common. */
  lemma {:induction false} DisjointExactly(p: ProgramHeader, q: ProgramHeader)
    requires (p.memsz > 0 || p.vaddr % 4096 != 0) && (q.memsz > 0 || q.vaddr % 4096 != 0)
    ensures PagesDisjoint(Read(p), Read(q)) <==> forall n: nat :: !(Touches(p, n) && Touches(q, n))
  {
    TouchesRange(p);
    TouchesRange(q);
    var a, b := p.vaddr / 4096, q.vaddr / 4096;
    if !PagesDisjoint(Read(p), Read(q)) {
      var n := if a < b then b else a;
      assert Touches(p, n) && Touches(q, n);
    }
  }

  lemma {:induction false} TouchesRange(p: ProgramHeader)
    ensures forall n: nat :: Touches(p, n) <==> PageStart(Read(p)) <= 4096 * n < PageEnd(Read(p))
  {
    forall n: nat ensures Touches(p, n) <==> PageStart(Read(p)) <= 4096 * n < PageEnd(Read(p)) {
      RoundedUp(p.vaddr + p.memsz, n);
    }
  }

  lemma {:induction false} RoundedUp(x: nat, n: nat)
    ensures 4096 * n < x <==> 4096 * n < (x + 4095) / 4096 * 4096
  {
  }

  // ----- whole files

  predicate PhdrWritten(file: seq<Byte>, at: nat, p: ProgramHeader) {
    && Fit(PhdrFields(p)) && at + PHDR_SIZE <= |file| && file[at..at + PHDR_SIZE] == Packed(PhdrFields(p))
  }

  /** The file header, and a table of program headers where it says. */
  predicate LaidOut(file: seq<Byte>, h: FileHeader, ps: seq<ProgramHeader>) {
    && IsHeader(file, h) && h.phnum == |ps|
    && forall i | 0 <= i < |ps| :: PhdrWritten(file, h.phoff + PHDR_SIZE * i, ps[i])
  }

  function ReadAll(ps: seq<ProgramHeader>): seq<Phdr> {
    seq(|ps|, i requires 0 <= i < |ps| => Read(ps[i]))
  }

  predicate HeaderAccepted(h: FileHeader) {
    && |h.ident| == 16 && h.ident[..6] == [0x7F, 'E' as int, 'L' as int, 'F' as int, 2, 1]
    && h.kind == 2 && h.machine == 62 && h.phentsize == 56 && 0 < h.phnum <= 16
  }

  /** A file written so is accepted exactly if its fields are good. */
  lemma {:induction false} AcceptedExactly(file: seq<Byte>, h: FileHeader, ps: seq<ProgramHeader>)
    requires LaidOut(file, h, ps)
    ensures Acceptable(file) <==>
            && HeaderAccepted(h) && SegmentsOk(ReadAll(ps), |file|)
            && exists i | 0 <= i < |ps| :: Contains(Read(ps[i]), h.entry)
  {
    HeaderExactly(file, h, ps);
    if HeaderOk(file) {
      TableRead(file, h, ps);
      assert forall i | 0 <= i < |ps| :: Phdrs(file)[i] == Read(ps[i]);
      assert Entry(file) == h.entry by { EhdrRound(file, h); }
    }
  }

  lemma {:induction false} HeaderExactly(file: seq<Byte>, h: FileHeader, ps: seq<ProgramHeader>)
    requires LaidOut(file, h, ps)
    ensures HeaderOk(file) <==> HeaderAccepted(h)
    ensures HeaderOk(file) ==> PhNum(file) == |ps|
  {
    EhdrRound(file, h);
    assert file[..4] == [0x7F, 0x45, 0x4C, 0x46] && file[4] == 2 && file[5] == 1 <==>
           h.ident[..6] == [0x7F, 'E' as int, 'L' as int, 'F' as int, 2, 1];
    if |ps| > 0 { assert PhdrWritten(file, h.phoff + PHDR_SIZE * (|ps| - 1), ps[|ps| - 1]); }
  }

  lemma {:induction false} TableRead(file: seq<Byte>, h: FileHeader, ps: seq<ProgramHeader>)
    requires LaidOut(file, h, ps) && HeaderOk(file)
    ensures Phdrs(file) == ReadAll(ps)
  {
    EhdrRound(file, h);
    forall i | 0 <= i < |ps| ensures Phdrs(file)[i] == ReadAll(ps)[i] {
      assert PhdrWritten(file, h.phoff + PHDR_SIZE * i, ps[i]);
      PhdrRound(file, h.phoff + PHDR_SIZE * i, ps[i]);
    }
  }

  /** A file of a header, one program header right behind it, and the rest. */
  lemma {:induction false} OneSegment(h: FileHeader, p: ProgramHeader, rest: seq<Byte>) returns (file: seq<Byte>)
    requires |h.ident| == 16 && Fit(EhdrFields(h)) && Fit(PhdrFields(p)) && h.phoff == EHDR_SIZE && h.phnum == 1
    ensures |file| == EHDR_SIZE + PHDR_SIZE + |rest| && LaidOut(file, h, [p])
  {
    var head, table := h.ident + Packed(EhdrFields(h)), Packed(PhdrFields(p));
    EhdrWidth(h);
    PhdrWidth(p);
    file := head + table + rest;
    assert file[..EHDR_SIZE] == head;
    assert file[EHDR_SIZE..EHDR_SIZE + PHDR_SIZE] == table;
    assert PhdrWritten(file, EHDR_SIZE, p);
  }

  lemma {:induction false} OneAccepted(h: FileHeader, p: ProgramHeader, rest: seq<Byte>) returns (file: seq<Byte>)
    requires Fit(EhdrFields(h)) && Fit(PhdrFields(p)) && HeaderAccepted(h) && h.phoff == EHDR_SIZE && h.phnum == 1
    requires SegmentOk(Read(p), EHDR_SIZE + PHDR_SIZE + |rest|) && Contains(Read(p), h.entry)
    ensures LaidOut(file, h, [p]) && Acceptable(file)
  {
    file := OneSegment(h, p, rest);
    var phs := ReadAll([p]);
    assert phs == [Read(p)];
    assert forall i, j :: ApartAt(phs, i, j);
    assert Contains(Read([p][0]), h.entry);
    AcceptedExactly(file, h, [p]);
  }

  // ----- a file with .bss

  const BSS_HEADER := FileHeader([0x7F, 0x45, 0x4C, 0x46, 2, 1, 1, 0, 0, 0, 0, 0, 0, 0, 0, 0], 2, 62, 1, 0x4000_1080,
                                 64, 3, 4, 64, 56, 1, 5, 6, 7)
  const BSS_SEGMENT := ProgramHeader(1, 6, 120, 0x4000_1078, 0x7000, 0x100, 0x200, 4)

  lemma {:induction false} Powers()
    ensures Pow256(2) == 0x1_0000 && Pow256(4) == 0x1_0000_0000 && Pow256(8) > 0xFFFF_FFFF
  {
    assert Pow256(3) == 0x100_0000;
    assert Pow256(6) == 0x1_0000_0000_0000;
  }

  lemma {:induction false} BssFits()
    ensures Fit(EhdrFields(BSS_HEADER)) && Fit(PhdrFields(BSS_SEGMENT))
  {
    Powers();
    var f, t := EhdrFields(BSS_HEADER), EhdrTail(BSS_HEADER);
    assert Fit(t.rest.rest.rest.rest.rest);
    assert Fit(t.rest.rest.rest);
    assert Fit(t.rest);
    assert Fit(f.rest.rest.rest.rest.rest);
    assert Fit(f.rest.rest.rest);
    assert Fit(f.rest);
    var p, q := PhdrFields(BSS_SEGMENT), PhdrTail(BSS_SEGMENT);
    assert Fit(q.rest.rest);
    assert Fit(q);
    assert Fit(p.rest.rest);
  }

  lemma {:induction false} BssGood()
    ensures HeaderAccepted(BSS_HEADER) && SegmentOk(Read(BSS_SEGMENT), 376)
    ensures Contains(Read(BSS_SEGMENT), BSS_HEADER.entry) && BSS_SEGMENT.filesz < BSS_SEGMENT.memsz
  {
    assert PowerOfTwo(2) && PowerOfTwo(4);
    assert BSS_HEADER.ident[..6] == [0x7F, 0x45, 0x4C, 0x46, 2, 1];
  }

  /** An accepted file whose segment is larger in memory than in the file, no two of its fields that
      could be mistaken for each other being equal. */
  lemma {:induction false} BssAccepted() returns (file: seq<Byte>)
    ensures LaidOut(file, BSS_HEADER, [BSS_SEGMENT]) && Acceptable(file)
  {
    BssFits();
    BssGood();
    file := OneAccepted(BSS_HEADER, BSS_SEGMENT, Zeros(256));
  }
}

/** Page-table entries as the 64-bit words of kernel/paging.hpp, and the records that stand
    for them elsewhere. */
module PteBits {
  import opened PageModel
  import opened Paging

  const PAGE_PRESENT: bv64 := 0x1
  const PAGE_WRITABLE: bv64 := 0x2
  const PAGE_USER: bv64 := 0x4
  const PAGE_HUGE: bv64 := 0x80
  const PAGE_OWNED: bv64 := 0x200
  const PAGE_NX: bv64 := 0x8000_0000_0000_0000
  const ADDR_MASK: bv64 := 0x000F_FFFF_FFFF_F000

  function Decode(w: bv64): Entry {
    Entry(w & PAGE_PRESENT != 0, w & PAGE_WRITABLE != 0, w & PAGE_USER != 0, w & PAGE_OWNED != 0,
          w & PAGE_HUGE != 0, w & PAGE_NX != 0, ((w & ADDR_MASK) >> 12) as nat)
  }

  function DecodeFlags(flags: bv64): Flags {
    Flags(flags & PAGE_WRITABLE != 0, flags & PAGE_USER != 0, flags & PAGE_OWNED != 0, flags & PAGE_HUGE != 0,
          flags & PAGE_NX != 0)
  }

  /** The flags an inner entry takes over. */
  function ExtraFlags(flags: bv64): bv64 {
    flags & !ADDR_MASK & !PAGE_HUGE & !PAGE_NX
  }

  /** table[index] |= PAGE_WRITABLE | extra_flags widens a present entry and nothing else. */
  lemma {:induction false} WidenWord(w: bv64, flags: bv64)
    requires w & PAGE_PRESENT != 0
    ensures Decode(w | (PAGE_WRITABLE | ExtraFlags(flags))) == Widened(Decode(w), DecodeFlags(flags))
  {
    var v := w | (PAGE_WRITABLE | ExtraFlags(flags));
    assert v & ADDR_MASK == w & ADDR_MASK;
    assert v & PAGE_PRESENT != 0 && v & PAGE_WRITABLE != 0;
    assert v & PAGE_HUGE == w & PAGE_HUGE && v & PAGE_NX == w & PAGE_NX;
    assert v & PAGE_USER == (w & PAGE_USER) | (flags & PAGE_USER);
    assert v & PAGE_OWNED == (w & PAGE_OWNED) | (flags & PAGE_OWNED);
  }

  lemma {:induction false} TableBits(frame: bv64, flags: bv64)
    requires frame & !ADDR_MASK == 0
    ensures var v := frame | PAGE_PRESENT | PAGE_WRITABLE | ExtraFlags(flags);
            && v & ADDR_MASK == frame & ADDR_MASK && v & PAGE_PRESENT != 0 && v & PAGE_WRITABLE != 0
            && v & PAGE_HUGE == 0 && v & PAGE_NX == 0
            && v & PAGE_USER == flags & PAGE_USER && v & PAGE_OWNED == flags & PAGE_OWNED
  {
  }

  /** new_frame | PAGE_PRESENT | PAGE_WRITABLE | extra_flags leads to the new table. */
  lemma {:induction false} TableWord(frame: bv64, flags: bv64)
    requires frame & !ADDR_MASK == 0
    ensures Decode(frame | PAGE_PRESENT | PAGE_WRITABLE | ExtraFlags(flags))
         == TableEntry(((frame & ADDR_MASK) >> 12) as nat, DecodeFlags(flags))
  {
    TableBits(frame, flags);
  }

  lemma {:induction false} PageBits(phys: bv64, flags: bv64)
    requires flags & ADDR_MASK == 0
    ensures var v := (phys & ADDR_MASK) | (flags | PAGE_PRESENT);
            && v & ADDR_MASK == phys & ADDR_MASK && v & PAGE_PRESENT != 0
            && v & PAGE_WRITABLE == flags & PAGE_WRITABLE && v & PAGE_HUGE == flags & PAGE_HUGE
            && v & PAGE_NX == flags & PAGE_NX
            && v & PAGE_USER == flags & PAGE_USER && v & PAGE_OWNED == flags & PAGE_OWNED
  {
  }

  /** (phys & ADDR_MASK) | (flags | PAGE_PRESENT) is the page asked for, given that the
      flags carry no address bits. */
  lemma {:induction false} PageWord(phys: bv64, flags: bv64)
    requires flags & ADDR_MASK == 0
    ensures Decode((phys & ADDR_MASK) | (flags | PAGE_PRESENT))
         == PageEntry(((phys & ADDR_MASK) >> 12) as nat, DecodeFlags(flags))
  {
    PageBits(phys, flags);
  }
}

/** kernel/usercopy.cpp: checking that a user range is mapped with the rights asked for. */
module UserCopy {
  import opened Frames
  import opened PageModel
  import opened Paging
  import Elf

  /** The processor lets user mode read, or write, at this address. */
  predicate Granted(mem: Memory, root: nat, va: nat, write: bool) {
    var w := WalkTo(mem, root, PathOf(va));
    w.Page? && w.user && (write ==> w.writable)
  }

  /** Though it tests writability in the last entry only, the check agrees with the full
      walk, which takes it from every level. */
  method PageIsUserAccessible(mem: Memory, root: nat, page: nat, requireWritable: bool) returns (ok: bool)
    requires Tree(mem, root) && RightsOk(mem, root)
    ensures ok <==> Granted(mem, root, page, requireWritable)
  {
    var a, b := page / TWO_39 % ENTRIES, page / TWO_30 % ENTRIES;
    var c, d := page / TWO_21 % ENTRIES, page / FRAME_SIZE % ENTRIES;
    ghost var p := PathOf(page);
    ghost var q3, q2, q1 := p.up, p.up.up, p.up.up.up;
    PathDepths(p);
    WalkSteps(mem, root, p);
    assert TableOk(mem, root, Root) && TableOk(mem, root, q1) && TableOk(mem, root, q2) && TableOk(mem, root, q3);
    var e1 := mem[root][a];
    if !e1.present || !e1.user { return false; }
    var e2 := mem[e1.frame][b];
    if !e2.present || !e2.user { return false; }
    if e2.huge { return !requireWritable || e2.writable; }
    var e3 := mem[e2.frame][c];
    if !e3.present || !e3.user { return false; }
    if e3.huge { return !requireWritable || e3.writable; }
    var e4 := mem[e3.frame][d];
    if !e4.present || !e4.user { return false; }
    return !requireWritable || e4.writable;
  }

  /** The walk, level by level, on tables that obey the rights invariant. */
  lemma {:induction false} WalkSteps(mem: Memory, root: nat, p: Path)
    requires RightsOk(mem, root) && FourDeep(p)
    ensures var q3, q2, q1 := p.up, p.up.up, p.up.up.up;
            var e1, e2, e3, e4 := EntryAt(mem, root, q1), EntryAt(mem, root, q2), EntryAt(mem, root, q3),
                EntryAt(mem, root, p);
            WalkTo(mem, root, p) ==
              if !e1.present then Fault
              else if !e2.present then Fault
              else if e2.huge then Page(e2.frame, q2, e2.writable, e2.user, !e2.nx)
              else if !e3.present then Fault
              else if e3.huge then Page(e3.frame, q3, e3.writable, e3.user, !e3.nx)
              else if !e4.present then Fault
              else Page(e4.frame, p, e4.writable, e4.user, !e4.nx)
    ensures EntryAt(mem, root, p).user ==> EntryAt(mem, root, p.up).user
    ensures EntryAt(mem, root, p.up).user ==> EntryAt(mem, root, p.up.up).user
    ensures EntryAt(mem, root, p.up.up).user ==> EntryAt(mem, root, p.up.up.up).user
  {
    PathDepths(p);
    var q3, q2, q1 := p.up, p.up.up, p.up.up.up;
    assert RightAt(mem, root, q1) && RightAt(mem, root, q2) && RightAt(mem, root, q3) && RightAt(mem, root, p);
    WalkRights(mem, root, q1);
    WalkRights(mem, root, q2);
    WalkRights(mem, root, q3);
    WalkRights(mem, root, p);
    assert WalkTo(mem, root, Root) == Inner(true, true, true);
  }

  /** A non-empty range is accepted exactly when it does not wrap, lies in the user window,
      and user mode is granted every byte of it. */
  method ValidateUserRange(mem: Memory, root: nat, addr: nat, length: nat, requireWritable: bool) returns (ok: bool)
    requires Tree(mem, root) && RightsOk(mem, root) && addr < TWO_64 && length < TWO_64
    ensures length == 0 ==> ok
    ensures length > 0 ==>
      (ok <==> Elf.USER_SPACE_MIN <= addr && addr + length <= Elf.USER_SPACE_MAX
               && forall a | addr <= a < addr + length :: Granted(mem, root, a, requireWritable))
  {
    if length == 0 { return true; }
    var end := (addr + length) % TWO_64;
    if end < addr { return false; }
    assert end == addr + length;
    if addr < Elf.USER_SPACE_MIN { return false; }
    if end > Elf.USER_SPACE_MAX { return false; }
    var page := addr / FRAME_SIZE * FRAME_SIZE;
    var lastPage := (end - 1) / FRAME_SIZE * FRAME_SIZE;
    ghost var n, last := addr / FRAME_SIZE, (end - 1) / FRAME_SIZE;
    while true
      invariant page == n * FRAME_SIZE && lastPage == last * FRAME_SIZE && addr / FRAME_SIZE <= n <= last
      invariant forall a | addr <= a < page :: Granted(mem, root, a, requireWritable)
      decreases last - n
    {
      var granted := PageIsUserAccessible(mem, root, page, requireWritable);
      forall a | n * FRAME_SIZE <= a < n * FRAME_SIZE + FRAME_SIZE
        ensures Granted(mem, root, a, requireWritable) <==> granted
      {
        InPage(n, a);
      }
      if !granted {
        ghost var first := if addr < page then page else addr;
        assert addr <= first < end && !Granted(mem, root, first, requireWritable);
        return false;
      }
      if page == lastPage { break; }
      page := page + FRAME_SIZE;
      n := n + 1;
    }
    return true;
  }

  lemma {:induction false} InPage(n: nat, a: nat)
    requires n * FRAME_SIZE <= a < n * FRAME_SIZE + FRAME_SIZE
    ensures PathOf(a) == PathOf(n * FRAME_SIZE)
  {
    FrameAddress(n);
    assert a / FRAME_SIZE == n;
    SamePage(a, n * FRAME_SIZE);
  }
}

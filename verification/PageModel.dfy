/** Four-level page tables in physical memory (Intel SDM volume 3A, sections 4.5 and 4.6),
    seen as a map from index paths to entries: the PML4, PDPT, PD and PT indices of a page
    make a path of depth 4, and its ancestors name the entries of the tables above. */
module PageModel {

  const ENTRIES: nat := 512

  datatype Entry = Entry(present: bool, writable: bool, user: bool, owned: bool, huge: bool, nx: bool, frame: nat)

  const ZERO := Entry(false, false, false, false, false, false, 0)

  datatype Path = Root | Child(up: Path, index: nat)

  type Memory = map<nat, seq<Entry>>

  function Depth(p: Path): nat {
    match p case Root => 0 case Child(up, _) => 1 + Depth(up)
  }

  predicate IsTable(mem: Memory, f: int) {
    f >= 0 && f in mem && |mem[f]| == ENTRIES
  }

  /** An entry at this depth leads to a further table. The huge bit says otherwise in a
      PDPT and in a PD, and means something else elsewhere. */
  predicate Points(e: Entry, depth: nat) {
    e.present && depth <= 3 && !(e.huge && depth >= 2)
  }

  /** The frame of the table a path leads to, -1 if there is none. */
  function TableAt(mem: Memory, root: nat, p: Path): int {
    match p
    case Root => root
    case Child(up, i) =>
      var e := Lookup(mem, TableAt(mem, root, up), i);
      if Points(e, Depth(p)) then e.frame else -1
  }

  /** An entry that is not present, or of a missing table, counts as all zero. */
  function Lookup(mem: Memory, t: int, i: nat): Entry {
    if IsTable(mem, t) && i < ENTRIES && mem[t][i].present then mem[t][i] else ZERO
  }

  function EntryAt(mem: Memory, root: nat, p: Path): Entry
    requires p.Child?
  {
    Lookup(mem, TableAt(mem, root, p.up), p.index)
  }

  // ----- what the processor does

  /** How far a walk along a path gets: nowhere, to a table, or to a page or large page
      found at `at`. Rights are those granted at every level passed. */
  datatype Walk =
    | Fault
    | Inner(writable: bool, user: bool, executable: bool)
    | Page(frame: nat, at: Path, writable: bool, user: bool, executable: bool)

  function WalkTo(mem: Memory, root: nat, p: Path): Walk {
    match p
    case Root => Inner(true, true, true)
    case Child(up, i) =>
      match WalkTo(mem, root, up)
      case Inner(w, u, x) =>
        var e := EntryAt(mem, root, p);
        if !e.present then Fault
        else if Points(e, Depth(p)) then Inner(w && e.writable, u && e.user, x && !e.nx)
        else Page(e.frame, p, w && e.writable, u && e.user, x && !e.nx)
      case other => other
  }

  // ----- the tree invariant

  predicate TableOk(mem: Memory, root: nat, p: Path) {
    TableAt(mem, root, p) >= 0 ==> IsTable(mem, TableAt(mem, root, p))
  }

  predicate SamePath(mem: Memory, root: nat, p: Path, q: Path) {
    TableAt(mem, root, p) >= 0 && TableAt(mem, root, p) == TableAt(mem, root, q) ==> p == q
  }

  /** Every path with a table leads to a real one, and no table is reached by two paths. */
  ghost predicate Tree(mem: Memory, root: nat) {
    && (forall p {:trigger TableOk(mem, root, p)} :: TableOk(mem, root, p))
    && (forall p, q {:trigger SamePath(mem, root, p, q)} :: SamePath(mem, root, p, q))
  }

  /** `p` is `q` or lies below it. */
  predicate Within(p: Path, q: Path) {
    p == q || (p.Child? && Within(p.up, q))
  }

  /** Writing one entry of a table. */
  function Write(mem: Memory, t: nat, i: nat, e: Entry): Memory
    requires IsTable(mem, t) && i < ENTRIES
  {
    mem[t := mem[t][i := e]]
  }

  /** A write changes nothing that is not at or below the entry written. */
  lemma {:induction false} WriteElsewhere(mem: Memory, root: nat, q: Path, e: Entry, p: Path)
    requires Tree(mem, root) && q.Child? && q.index < ENTRIES && IsTable(mem, TableAt(mem, root, q.up))
    requires !Within(p, q)
    ensures var mem' := Write(mem, TableAt(mem, root, q.up), q.index, e);
            && TableAt(mem', root, p) == TableAt(mem, root, p)
            && (p.Child? ==> EntryAt(mem', root, p) == EntryAt(mem, root, p))
  {
    if p.Child? {
      WriteElsewhere(mem, root, q, e, p.up);
      assert SamePath(mem, root, p.up, q.up);
    }
  }

  // ----- single writes, seen from the paths

  predicate AgreeAt(mem: Memory, mem': Memory, root: nat, p: Path) {
    p.Child? ==> EntryAt(mem', root, p) == EntryAt(mem, root, p)
  }

  /** The two memories differ at most in the entry at `q`. */
  ghost predicate AgreeOff(mem: Memory, mem': Memory, root: nat, q: Path) {
    forall p {:trigger AgreeAt(mem, mem', root, p)} | p != q :: AgreeAt(mem, mem', root, p)
  }

  lemma {:induction false} AgreeTable(mem: Memory, mem': Memory, root: nat, q: Path, p: Path)
    requires AgreeOff(mem, mem', root, q) && p != q
    ensures TableAt(mem', root, p) == TableAt(mem, root, p)
  {
    assert AgreeAt(mem, mem', root, p);
  }

  predicate SamePointer(e: Entry, e': Entry) {
    e.present && e'.present && e'.huge == e.huge && e'.frame == e.frame
  }

  /** Changing the rights of an entry changes that entry only. */
  lemma {:induction false} RightsWrite(mem: Memory, root: nat, q: Path, e: Entry)
    requires Tree(mem, root) && q.Child? && q.index < ENTRIES && IsTable(mem, TableAt(mem, root, q.up))
    requires SamePointer(EntryAt(mem, root, q), e)
    ensures var mem' := Write(mem, TableAt(mem, root, q.up), q.index, e);
            AgreeOff(mem, mem', root, q) && EntryAt(mem', root, q) == e
  {
    var mem' := Write(mem, TableAt(mem, root, q.up), q.index, e);
    forall p ensures p != q ==> AgreeAt(mem, mem', root, p) { RightsWriteAt(mem, root, q, e, p); }
    RightsWriteAt(mem, root, q, e, q.up);
  }

  lemma {:induction false} RightsWriteAt(mem: Memory, root: nat, q: Path, e: Entry, p: Path)
    requires Tree(mem, root) && q.Child? && q.index < ENTRIES && IsTable(mem, TableAt(mem, root, q.up))
    requires SamePointer(EntryAt(mem, root, q), e)
    ensures var mem' := Write(mem, TableAt(mem, root, q.up), q.index, e);
            && TableAt(mem', root, p) == TableAt(mem, root, p)
            && (p != q ==> AgreeAt(mem, mem', root, p))
  {
    if p.Child? {
      RightsWriteAt(mem, root, q, e, p.up);
      assert SamePath(mem, root, p.up, q.up);
    }
  }

  /** Writing an entry of a page table proper. */
  lemma {:induction false} LeafWrite(mem: Memory, root: nat, q: Path, e: Entry)
    requires Tree(mem, root) && Depth(q) == 4 && q.index < ENTRIES && IsTable(mem, TableAt(mem, root, q.up))
    ensures var mem' := Write(mem, TableAt(mem, root, q.up), q.index, e);
            AgreeOff(mem, mem', root, q) && EntryAt(mem', root, q) == if e.present then e else ZERO
  {
    var mem' := Write(mem, TableAt(mem, root, q.up), q.index, e);
    forall p ensures p != q ==> AgreeAt(mem, mem', root, p) { LeafWriteAt(mem, root, q, e, p); }
    LeafWriteAt(mem, root, q, e, q.up);
  }

  lemma {:induction false} LeafWriteAt(mem: Memory, root: nat, q: Path, e: Entry, p: Path)
    requires Tree(mem, root) && Depth(q) == 4 && q.index < ENTRIES && IsTable(mem, TableAt(mem, root, q.up))
    ensures var mem' := Write(mem, TableAt(mem, root, q.up), q.index, e);
            && TableAt(mem', root, p) == TableAt(mem, root, p)
            && (p != q ==> AgreeAt(mem, mem', root, p))
  {
    if p.Child? {
      LeafWriteAt(mem, root, q, e, p.up);
      assert SamePath(mem, root, p.up, q.up);
    }
  }

  ghost predicate OutsideTree(mem: Memory, root: nat, f: nat) {
    forall p {:trigger TableAt(mem, root, p)} :: TableAt(mem, root, p) != f
  }

  /** A frame that is no table of the tree may be filled with anything. */
  lemma {:induction false} ForeignFrame(mem: Memory, root: nat, f: nat, table: seq<Entry>, p: Path)
    requires OutsideTree(mem, root, f)
    ensures TableAt(mem[f := table], root, p) == TableAt(mem, root, p)
    ensures AgreeAt(mem, mem[f := table], root, p)
  {
    if p.Child? {
      ForeignFrame(mem, root, f, table, p.up);
      assert TableAt(mem, root, p.up) != f;
    }
  }

  function ZeroTable(): (t: seq<Entry>)
    ensures |t| == ENTRIES
  {
    seq(ENTRIES, _ => ZERO)
  }

  /** Hooking a fresh all-zero table into an absent entry changes that entry only. */
  lemma {:induction false} NewTable(mem: Memory, root: nat, q: Path, f: nat, e: Entry)
    requires Tree(mem, root) && q.Child? && q.index < ENTRIES && IsTable(mem, TableAt(mem, root, q.up))
    requires OutsideTree(mem, root, f) && !EntryAt(mem, root, q).present
    requires Points(e, Depth(q)) && e.frame == f
    ensures var mem' := Write(mem[f := ZeroTable()], TableAt(mem, root, q.up), q.index, e);
            && AgreeOff(mem, mem', root, q) && EntryAt(mem', root, q) == e
            && TableAt(mem', root, q) == f
  {
    var mem' := Write(mem[f := ZeroTable()], TableAt(mem, root, q.up), q.index, e);
    forall p ensures p != q ==> AgreeAt(mem, mem', root, p) { NewTableAt(mem, root, q, f, e, p); }
    NewTableAt(mem, root, q, f, e, q.up);
    NotWithinSelf(q);
  }

  lemma {:induction false} NotWithinSelf(q: Path)
    requires q.Child?
    ensures !Within(q.up, q)
  {
    WithinDepth(q.up, q);
  }

  lemma {:induction false} WithinDepth(p: Path, q: Path)
    ensures Within(p, q) ==> Depth(p) >= Depth(q)
  {
    if p.Child? { WithinDepth(p.up, q); }
  }

  lemma {:induction false} NewTableAt(mem: Memory, root: nat, q: Path, f: nat, e: Entry, p: Path)
    requires Tree(mem, root) && q.Child? && q.index < ENTRIES && IsTable(mem, TableAt(mem, root, q.up))
    requires OutsideTree(mem, root, f) && !EntryAt(mem, root, q).present
    requires Points(e, Depth(q)) && e.frame == f
    ensures var mem' := Write(mem[f := ZeroTable()], TableAt(mem, root, q.up), q.index, e);
            && TableAt(mem', root, p) == (if p == q then f else TableAt(mem, root, p))
            && (p != q ==> AgreeAt(mem, mem', root, p))
  {
    var t := TableAt(mem, root, q.up);
    assert t != f;
    if p.Child? {
      NewTableAt(mem, root, q, f, e, p.up);
      assert SamePath(mem, root, p.up, q.up) && TableAt(mem, root, p.up) != f;
      NotWithinSelf(q);
    }
  }

  predicate IsEmpty(table: seq<Entry>) {
    forall i | 0 <= i < |table| :: !table[i].present
  }

  /** Unhooking an empty table changes the entry that pointed to it only. */
  lemma {:induction false} DropTable(mem: Memory, root: nat, q: Path)
    requires Tree(mem, root) && q.Child? && q.index < ENTRIES && IsTable(mem, TableAt(mem, root, q.up))
    requires IsTable(mem, TableAt(mem, root, q)) && IsEmpty(mem[TableAt(mem, root, q)])
    ensures var mem' := Write(mem, TableAt(mem, root, q.up), q.index, ZERO);
            AgreeOff(mem, mem', root, q) && EntryAt(mem', root, q) == ZERO
  {
    var mem' := Write(mem, TableAt(mem, root, q.up), q.index, ZERO);
    forall p ensures p != q ==> AgreeAt(mem, mem', root, p) { DropTableAt(mem, root, q, p); }
    DropTableAt(mem, root, q, q.up);
    NotWithinSelf(q);
  }

  lemma {:induction false} DropTableAt(mem: Memory, root: nat, q: Path, p: Path)
    requires Tree(mem, root) && q.Child? && q.index < ENTRIES && IsTable(mem, TableAt(mem, root, q.up))
    requires IsTable(mem, TableAt(mem, root, q)) && IsEmpty(mem[TableAt(mem, root, q)])
    ensures var mem' := Write(mem, TableAt(mem, root, q.up), q.index, ZERO);
            && TableAt(mem', root, p) == (if p == q then -1 else TableAt(mem, root, p))
            && (p != q ==> AgreeAt(mem, mem', root, p))
  {
    if p.Child? {
      DropTableAt(mem, root, q, p.up);
      assert SamePath(mem, root, p.up, q.up) && SamePath(mem, root, p.up, q) && SamePath(mem, root, q.up, q);
      NotWithinSelf(q);
    }
  }

  /** A change at one entry keeps the tree: the entry points where it did, nowhere, or to a
      table that was not in the tree. */
  lemma {:induction false} TreeKept(mem: Memory, mem': Memory, root: nat, q: Path)
    requires Tree(mem, root) && AgreeOff(mem, mem', root, q) && q.Child?
    requires forall f | IsTable(mem, f) :: IsTable(mem', f)
    requires var t := TableAt(mem', root, q);
             t == TableAt(mem, root, q) || t == -1 || (t >= 0 && IsTable(mem', t) && OutsideTree(mem, root, t))
    ensures Tree(mem', root)
  {
    forall p ensures TableOk(mem', root, p) {
      assert TableOk(mem, root, p);
      if p != q { AgreeTable(mem, mem', root, q, p); }
    }
    forall p, r ensures SamePath(mem', root, p, r) {
      assert SamePath(mem, root, p, r);
      if p != q { AgreeTable(mem, mem', root, q, p); }
      if r != q { AgreeTable(mem, mem', root, q, r); }
    }
  }

  // ----- rights

  /** An entry leading to a table grants write and execute, and an entry open to user mode
      sits below entries open to user mode. */
  predicate RightAt(mem: Memory, root: nat, p: Path) {
    p.Child? ==>
      var e := EntryAt(mem, root, p);
      && (Points(e, Depth(p)) ==> e.writable && !e.nx)
      && (e.user && p.up.Child? ==> EntryAt(mem, root, p.up).user)
  }

  ghost predicate RightsOk(mem: Memory, root: nat) {
    forall p {:trigger RightAt(mem, root, p)} :: RightAt(mem, root, p)
  }

  /** Then the rights a walk ends with are those of the entry it ends in. */
  lemma {:induction false} WalkRights(mem: Memory, root: nat, p: Path)
    requires RightsOk(mem, root)
    ensures match WalkTo(mem, root, p)
            case Fault => true
            case Inner(w, u, x) => w && x && u == (p.Root? || EntryAt(mem, root, p).user)
            case Page(f, at, w, u, x) =>
              at.Child? && (var e := EntryAt(mem, root, at);
              e.present && !Points(e, Depth(at)) && f == e.frame && w == e.writable && u == e.user && x == !e.nx)
  {
    if p.Child? {
      WalkRights(mem, root, p.up);
      assert RightAt(mem, root, p);
    }
  }

  /** A walk reaches every table. */
  lemma {:induction false} WalkReaches(mem: Memory, root: nat, p: Path)
    requires TableAt(mem, root, p) >= 0
    ensures WalkTo(mem, root, p).Inner?
  {
    if p.Child? { WalkReaches(mem, root, p.up); }
  }

  /** The same outcome up to the rights of inner steps. */
  predicate SameShape(w: Walk, w': Walk) {
    match w
    case Fault => w'.Fault?
    case Inner(_, _, _) => w'.Inner?
    case Page(f, at, _, _, _) => w'.Page? && w'.frame == f && w'.at == at
  }

  /** The entry at `q` leads to a table afterwards, and to the same one if it did before. */
  predicate InnerStep(mem: Memory, mem': Memory, root: nat, q: Path)
    requires q.Child?
  {
    var e, e' := EntryAt(mem, root, q), EntryAt(mem', root, q);
    Points(e', Depth(q)) && (!e.present || Points(e, Depth(q)))
  }

  lemma {:induction false} ShapeKept(mem: Memory, mem': Memory, root: nat, q: Path, p: Path)
    requires AgreeOff(mem, mem', root, q) && q.Child? && InnerStep(mem, mem', root, q) && p != q
    ensures SameShape(WalkTo(mem, root, p), WalkTo(mem', root, p))
  {
    if p.Child? {
      assert AgreeAt(mem, mem', root, p);
      if p.up != q {
        ShapeKept(mem, mem', root, q, p.up);
      } else {
        NotWithinSelf(q);
        ShapeKept(mem, mem', root, q, q.up);
        WalkReached(mem, root, q);
      }
    }
  }

  lemma {:induction false} WalkReached(mem: Memory, root: nat, p: Path)
    ensures WalkTo(mem, root, p).Inner? <==> TableAt(mem, root, p) >= 0
  {
    if p.Child? { WalkReached(mem, root, p.up); }
  }

  /** Widening an inner entry, or adding an empty table, changes no translation. */
  lemma {:induction false} InnerKeepsWalk(mem: Memory, mem': Memory, root: nat, q: Path, p: Path)
    requires RightsOk(mem, root) && RightsOk(mem', root)
    requires AgreeOff(mem, mem', root, q) && q.Child? && InnerStep(mem, mem', root, q) && Depth(p) == 4 && Depth(q) <= 3
    ensures WalkTo(mem', root, p) == WalkTo(mem, root, p)
  {
    ShapeKept(mem, mem', root, q, p);
    WalkRights(mem, root, p);
    WalkRights(mem', root, p);
    match WalkTo(mem, root, p)
    case Page(_, at, _, _, _) => assert AgreeAt(mem, mem', root, at);
    case _ =>
  }

  /** Writing a page's own entry changes the translation of that page only. */
  lemma {:induction false} LeafKeepsWalk(mem: Memory, mem': Memory, root: nat, q: Path, p: Path)
    requires AgreeOff(mem, mem', root, q) && Depth(q) == 4 && Depth(p) <= 4 && p != q
    ensures WalkTo(mem', root, p) == WalkTo(mem, root, p)
  {
    if p.Child? {
      assert AgreeAt(mem, mem', root, p);
      assert p.up != q;
      LeafKeepsWalk(mem, mem', root, q, p.up);
    }
  }

  // ----- frames a space answers for

  /** The PDPT entry every address space shares with the kernel. */
  const KERNEL := Child(Child(Root, 0), 0)

  predicate Private(p: Path) {
    p.Child? && !Within(p, KERNEL)
  }

  predicate HoldsFrame(e: Entry, depth: nat) {
    e.present && (Points(e, depth) || (depth == 4 && e.owned))
  }

  predicate OwnsAt(mem: Memory, root: nat, f: nat, p: Path) {
    Private(p) && HoldsFrame(EntryAt(mem, root, p), Depth(p)) && EntryAt(mem, root, p).frame == f
  }

  /** A table of the space, or the frame of an owned page. */
  ghost predicate Owns(mem: Memory, root: nat, f: nat) {
    f == root || exists p :: OwnsAt(mem, root, f, p)
  }

  /** Filling an entry adds at most its frame, and takes at most the frame it held. */
  lemma {:induction false} OwnsAdded(mem: Memory, mem': Memory, root: nat, q: Path, f: nat)
    requires AgreeOff(mem, mem', root, q) && Private(q) && !OwnsAt(mem, root, f, q)
    ensures Owns(mem', root, f) <==> Owns(mem, root, f) || OwnsAt(mem', root, f, q)
  {
    if p :| OwnsAt(mem, root, f, p) {
      assert p != q;
      assert AgreeAt(mem, mem', root, p) && OwnsAt(mem', root, f, p);
    }
    if p :| OwnsAt(mem', root, f, p) {
      if p != q { assert AgreeAt(mem, mem', root, p) && OwnsAt(mem, root, f, p); }
    }
  }

  /** Changing rights that do not matter for ownership changes nothing. */
  lemma {:induction false} OwnsSame(mem: Memory, mem': Memory, root: nat, q: Path, f: nat)
    requires AgreeOff(mem, mem', root, q) && q.Child?
    requires OwnsAt(mem, root, f, q) <==> OwnsAt(mem', root, f, q)
    ensures Owns(mem', root, f) <==> Owns(mem, root, f)
  {
    if p :| OwnsAt(mem, root, f, p) {
      if p != q { assert AgreeAt(mem, mem', root, p); }
      assert OwnsAt(mem', root, f, p);
    }
    if p :| OwnsAt(mem', root, f, p) {
      if p != q { assert AgreeAt(mem, mem', root, p); }
      assert OwnsAt(mem, root, f, p);
    }
  }
}

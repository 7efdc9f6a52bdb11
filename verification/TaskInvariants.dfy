/** What every step of the task machine keeps, and hence what holds in every run. */
module TaskInvariants {
  import opened TaskModel

  // ----- the family tree

  predicate NoDuplicates(s: seq<nat>) {
    forall a, b :: 0 <= a < b < |s| ==> s[a] != s[b]
  }

  predicate WaitsBlocked(p: Proc) {
    p.state.Blocked? && p.phase.Waiting?
  }

  predicate Gone(p: Proc) {
    p.state.Dead? || p.state.Zombie?
  }

  /** A list has no duplicates; an exited task has none, a Zombie still has a parent. */
  predicate NodeOk(ps: seq<Proc>, i: int) {
    0 <= i < |ps| ==>
      && NoDuplicates(ps[i].kids)
      && (Gone(ps[i]) ==> ps[i].kids == [] && (ps[i].parent == -1 <==> ps[i].state.Dead?))
  }

  /** Whoever is on a list is live and names its owner as parent, and is not a
      Zombie while the owner is blocked in wait_for_child. */
  predicate KidOk(ps: seq<Proc>, i: int, c: int) {
    0 <= i < |ps| && c in ps[i].kids ==>
      Live(ps, c) && ps[c].parent == i && c != i && (WaitsBlocked(ps[i]) ==> !ps[c].state.Zombie?)
  }

  /** A live task's parent, if any, is neither Dead nor a Zombie and has it on its list. */
  predicate ParentOk(ps: seq<Proc>, c: int) {
    Live(ps, c) && ps[c].parent != -1 ==>
      var i := ps[c].parent;
      Live(ps, i) && !ps[i].state.Zombie? && c in ps[i].kids
  }

  ghost predicate Family(ps: seq<Proc>) {
    && (forall i {:trigger NodeOk(ps, i)} :: NodeOk(ps, i))
    && (forall i, c {:trigger KidOk(ps, i, c)} :: KidOk(ps, i, c))
    && (forall c {:trigger ParentOk(ps, c)} :: ParentOk(ps, c))
  }

  /** Changes that leave the family alone: run states move between the live ones. */
  ghost predicate SameFamily(ps: seq<Proc>, ps': seq<Proc>) {
    && |ps'| == |ps|
    && forall i | 0 <= i < |ps| ::
         && ps'[i].kids == ps[i].kids && ps'[i].parent == ps[i].parent
         && (ps'[i].state.Dead? <==> ps[i].state.Dead?)
         && (ps'[i].state.Zombie? <==> ps[i].state.Zombie?)
         && (WaitsBlocked(ps'[i]) ==> WaitsBlocked(ps[i]))
  }

  lemma {:induction false} FamilyKept(ps: seq<Proc>, ps': seq<Proc>)
    requires Family(ps) && SameFamily(ps, ps')
    ensures Family(ps')
  {
    forall i ensures NodeOk(ps', i) { assert NodeOk(ps, i); }
    forall i, c ensures KidOk(ps', i, c) { assert KidOk(ps, i, c); }
    forall c ensures ParentOk(ps', c) { assert ParentOk(ps, c); }
  }

  lemma {:induction false} CreateKeepsFamily(ps: seq<Proc>, cur: nat, i: nat, child: Proc)
    requires Family(ps) && cur < |ps| && i < |ps| && ps[i].state.Dead? && ps[cur].state.Running?
    requires child.parent == cur && child.kids == [] && child.state.Ready?
    ensures var ps1 := ps[i := child];
            Family(ps1[cur := ps1[cur].(kids := [i] + ps1[cur].kids)])
  {
    var ps1 := ps[i := child];
    var q := ps1[cur := ps1[cur].(kids := [i] + ps1[cur].kids)];
    assert KidOk(ps, cur, i);
    forall j ensures NodeOk(q, j) { assert NodeOk(ps, j); }
    forall j, c ensures KidOk(q, j, c) { assert KidOk(ps, j, c); }
    forall c ensures ParentOk(q, c) { assert ParentOk(ps, c); assert NodeOk(ps, i); }
  }

  lemma {:induction false} ReversedMembers(s: seq<nat>)
    ensures forall x :: x in Reversed(s) <==> x in s
  {
    if s != [] {
      ReversedMembers(s[1..]);
      assert forall x :: x in s <==> x == s[0] || x in s[1..];
    }
  }

  lemma {:induction false} ReversedNoDuplicates(s: seq<nat>)
    requires NoDuplicates(s)
    ensures NoDuplicates(Reversed(s))
  {
    if s != [] {
      ReversedNoDuplicates(s[1..]);
      ReversedMembers(s[1..]);
      assert s[0] !in s[1..];
    }
  }

  lemma {:induction false} AppendNoDuplicates(s: seq<nat>, t: seq<nat>)
    requires NoDuplicates(s) && NoDuplicates(t)
    requires forall x :: x in s ==> x !in t
    ensures NoDuplicates(s + t)
  {
    forall a, b | 0 <= a < b < |s + t| ensures (s + t)[a] != (s + t)[b] {
      if a < |s| <= b {
        assert s[a] in s && t[b - |s|] in t;
      }
    }
  }

  predicate SameId(p: Proc, q: Proc) {
    q.pid == p.pid && q.generation == p.generation && q.exitCode == p.exitCode
  }

  /** What adoption does to one task. */
  predicate AdoptedAt(ps: seq<Proc>, q: seq<Proc>, self: nat, init: nat, j: nat)
    requires self < |ps| && init < |ps| && j < |ps| == |q|
  {
    && q[j].kids == (if j == self then [] else if j == init then Reversed(ps[self].kids) + ps[init].kids
                     else ps[j].kids)
    && q[j].parent == (if j in ps[self].kids then init else ps[j].parent)
    && q[j].state == (if j == init && ps[j].state.Blocked? then Ready else ps[j].state)
    && q[j].phase == ps[j].phase && q[j].stack == ps[j].stack && q[j].space == ps[j].space
    && q[j].saved == ps[j].saved && q[j].wakeTick == ps[j].wakeTick
    && SameId(ps[j], q[j])
  }

  lemma {:induction false} AdoptShape(ps: seq<Proc>, self: nat, init: nat)
    requires self < |ps| && init < |ps| && self != init && ps[self].kids != []
    ensures forall j: nat {:trigger AdoptedAt(ps, Adopt(ps, self, init), self, init, j)} |
              j < |ps| :: AdoptedAt(ps, Adopt(ps, self, init), self, init, j)
  {
  }

  lemma {:induction false} AdoptedFamily(ps: seq<Proc>, q: seq<Proc>, self: nat, init: nat)
    requires Family(ps) && self < |ps| == |q| && init < |ps| && self != init
    requires !Gone(ps[self]) && !Gone(ps[init]) && ps[init].parent == -1
    requires forall j: nat {:trigger AdoptedAt(ps, q, self, init, j)} | j < |ps| :: AdoptedAt(ps, q, self, init, j)
    ensures Family(q)
  {
    var kids := ps[self].kids;
    assert KidOk(ps, self, init) && NodeOk(ps, self) && NodeOk(ps, init);
    forall x | x in kids ensures x !in ps[init].kids {
      assert KidOk(ps, self, x) && KidOk(ps, init, x);
    }
    ReversedNoDuplicates(kids);
    ReversedMembers(kids);
    AppendNoDuplicates(Reversed(kids), ps[init].kids);
    assert AdoptedAt(ps, q, self, init, self) && AdoptedAt(ps, q, self, init, init);
    forall j ensures NodeOk(q, j) {
      if 0 <= j < |q| { assert NodeOk(ps, j) && KidOk(ps, self, j) && AdoptedAt(ps, q, self, init, j); }
    }
    forall j, c ensures KidOk(q, j, c) {
      if 0 <= j < |q| && c in q[j].kids {
        assert KidOk(ps, j, c) && KidOk(ps, self, c) && AdoptedAt(ps, q, self, init, j);
        assert AdoptedAt(ps, q, self, init, c);
      }
    }
    forall c ensures ParentOk(q, c) {
      if Live(q, c) && q[c].parent != -1 {
        assert AdoptedAt(ps, q, self, init, c) && ParentOk(ps, c);
        assert KidOk(ps, self, c) && AdoptedAt(ps, q, self, init, q[c].parent);
      }
    }
  }

  lemma {:induction false} AdoptKeepsFamily(ps: seq<Proc>, self: nat, init: nat)
    requires Family(ps) && self < |ps| && init < |ps| && self != init
    requires !Gone(ps[self]) && !Gone(ps[init]) && ps[init].parent == -1
    ensures Family(Adopt(ps, self, init))
    ensures Adopt(ps, self, init)[self] == ps[self].(kids := [])
  {
    assert KidOk(ps, self, self);
    if ps[self].kids != [] {
      AdoptShape(ps, self, init);
      AdoptedFamily(ps, Adopt(ps, self, init), self, init);
    }
  }

  lemma {:induction false} BuryKeepsFamily(ps: seq<Proc>, self: nat)
    requires Family(ps) && self < |ps| && !Gone(ps[self]) && ps[self].kids == []
    ensures Family(Bury(ps, self))
  {
    var q := Bury(ps, self);
    assert ParentOk(ps, self) && NodeOk(ps, self);
    assert KidOk(ps, ps[self].parent, self);
    forall j ensures NodeOk(q, j) { assert NodeOk(ps, j); }
    forall j, c ensures KidOk(q, j, c) { assert KidOk(ps, j, c); }
    forall c ensures ParentOk(q, c) { assert ParentOk(ps, c) && KidOk(ps, self, c); }
  }

  lemma {:induction false} DepartKeepsFamily(k: Kernel, code: int)
    requires Family(k.procs) && k.cur < |k.procs| && k.init < |k.procs| && k.cur != k.init
    requires !Gone(k.procs[k.cur]) && !Gone(k.procs[k.init]) && k.procs[k.init].parent == -1
    ensures Family(Depart(k, code).procs)
  {
    var ps := k.procs[k.cur := k.procs[k.cur].(stack := 0, space := 0, exitCode := code)];
    FamilyKept(k.procs, ps);
    AdoptKeepsFamily(ps, k.cur, k.init);
    BuryKeepsFamily(Adopt(ps, k.cur, k.init), k.cur);
  }

  lemma {:induction false} ReapChildKeepsFamily(k: Kernel, n: nat)
    requires Family(k.procs) && k.cur < |k.procs| && !Gone(k.procs[k.cur])
    requires n < |k.procs[k.cur].kids| && k.procs[k.cur].kids[n] < |k.procs|
    requires k.procs[k.procs[k.cur].kids[n]].state.Zombie?
    requires k.procs[k.cur].state.Running?
    ensures Family(ReapChild(k, n).procs)
  {
    var ps := k.procs;
    var q := ReapChild(k, n).procs;
    var kids := ps[k.cur].kids;
    var x := kids[n];
    assert NodeOk(ps, k.cur) && KidOk(ps, k.cur, x) && NodeOk(ps, x);
    assert x in kids;
    assert forall c :: c in Without(kids, n) <==> c in kids && c != x;
    forall j ensures NodeOk(q, j) { assert NodeOk(ps, j); }
    forall j, c ensures KidOk(q, j, c) { assert KidOk(ps, j, c); }
    forall c ensures ParentOk(q, c) { assert ParentOk(ps, c) && KidOk(ps, x, c); }
  }

  lemma {:induction false} RescheduleKeepsFamily(k: Kernel)
    requires Family(k.procs) && k.cur < |k.procs|
    ensures Family(Reschedule(k).procs)
  {
    FamilyKept(k.procs, Reschedule(k).procs);
  }

  lemma {:induction false} WaitKeepsFamily(k: Kernel)
    requires Family(k.procs) && k.cur < |k.procs| && k.procs[k.cur].state.Running?
    ensures Family(WaitStep(k).procs)
  {
    var self := k.procs[k.cur];
    var n := FirstZombie(k.procs, self.kids);
    if n < |self.kids| {
      ReapChildKeepsFamily(k, n);
    } else {
      var ps := k.procs[k.cur := self.(state := Blocked, phase := Waiting)];
      forall j ensures NodeOk(ps, j) { assert NodeOk(k.procs, j); }
      forall j, c ensures KidOk(ps, j, c) { assert KidOk(k.procs, j, c); }
      forall c ensures ParentOk(ps, c) { assert ParentOk(k.procs, c); }
      RescheduleKeepsFamily(k.(procs := ps));
    }
  }

  lemma {:induction false} ParkKeepsFamily(k: Kernel, state: RunState, wakeTick: nat)
    requires Family(k.procs) && k.cur < |k.procs| && k.procs[k.cur].state.Running?
    requires k.procs[k.cur].phase.Body? && (state.Blocked? || state.Sleeping?)
    ensures Family(Park(k, state, wakeTick).procs)
  {
    var ps := k.procs[k.cur := k.procs[k.cur].(state := state, wakeTick := wakeTick)];
    FamilyKept(k.procs, ps);
    RescheduleKeepsFamily(k.(procs := ps));
  }

  lemma {:induction false} TickKeepsFamily(k: Kernel)
    requires Family(k.procs) && k.cur < |k.procs|
    ensures Family(TickStep(k).procs)
  {
    var ps := WakeSleepers(k.procs, k.now + 1);
    assert SameFamily(k.procs, ps);
    FamilyKept(k.procs, ps);
    RescheduleKeepsFamily(k.(now := k.now + 1, procs := ps, tickCounter := 0));
  }

  lemma {:induction false} TrampolineKeepsFamily(k: Kernel)
    requires Family(k.procs) && k.cur < |k.procs| && k.procs[k.cur].state.Running?
    ensures Family(TrampolineStep(k).procs)
  {
    FamilyKept(k.procs, TrampolineStep(k).procs);
  }

  lemma {:induction false} SpawnKeepsFamily(k: Kernel, stack: nat, space: nat)
    requires Family(k.procs) && k.cur < |k.procs| <= 255 && k.procs[k.cur].state.Running?
    ensures Family(CreateStep(k, stack, space).procs)
  {
    var i := FreeSlot(k.procs, 0);
    if i >= 0 && stack != 0 {
      CreateKeepsFamily(k.procs, k.cur, i, NewProc(i, k.procs[i].generation + 1, k.cur, stack, space));
    }
  }

  lemma {:induction false} StepKeepsFamily(k: Kernel, step: Step)
    requires Family(k.procs) && Placed(k) && Enabled(k, step)
    ensures Family(Apply(k, step).procs)
  {
    match step {
      case Create(stack, space) => SpawnKeepsFamily(k, stack, space);
      case Exit(code) =>
        DepartKeepsFamily(k, code);
        RescheduleKeepsFamily(Depart(k, code));
      case Wait => WaitKeepsFamily(k);
      case Block => ParkKeepsFamily(k, Blocked, k.procs[k.cur].wakeTick);
      case Unblock(slot) => FamilyKept(k.procs, WakeSlot(k.procs, slot));
      case Sleep(ticks) => ParkKeepsFamily(k, Sleeping, WakeAt(k.now, ticks));
      case Yield => RescheduleKeepsFamily(k);
      case Tick => TickKeepsFamily(k);
      case Trampoline => TrampolineKeepsFamily(k);
    }
  }

  // ----- the processor

  /** Between two steps the processor is in the one Running task, on its stack and in
      its address space, and an exited task's leftovers wait only for a task that has
      not passed its trampoline's check. */
  ghost predicate Placed(k: Kernel) {
    && Rest(k)
    && k.procs[k.cur].state.Running?
    && k.onStack == k.procs[k.cur].stack && k.loaded == Target(k, k.procs[k.cur].space)
    && (k.pending.active ==> k.procs[k.cur].phase.Entry? || k.procs[k.cur].phase.Checked?)
  }

  /** Every task but the current one is saved on its own stack and not Running; an
      exited task has given everything up. */
  predicate ProcOk(ps: seq<Proc>, cur: nat, i: int) {
    0 <= i < |ps| ==>
      && (i != cur ==> !ps[i].state.Running? && (!Gone(ps[i]) ==> ps[i].saved == ps[i].stack))
      && (Gone(ps[i]) ==> EmptyHanded(ps[i]))
      && !ps[i].state.New?
  }

  predicate EmptyHanded(p: Proc) {
    p.stack == 0 && p.space == 0 && !p.phase.Taken? && !p.phase.Freed?
  }

  /** What holds even while the current task is being put away; idle can always run
      and init never exits. */
  ghost predicate Rest(k: Kernel) {
    && k.cur < |k.procs| <= 255 && k.idle < |k.procs| && k.init < |k.procs|
    && (forall i {:trigger ProcOk(k.procs, k.cur, i)} :: ProcOk(k.procs, k.cur, i))
    && (k.procs[k.idle].state.Ready? || k.procs[k.idle].state.Running?)
    && !Gone(k.procs[k.init]) && k.procs[k.init].parent == -1
    && k.kernelSpace != 0 && k.tickCounter < TICKS_PER_SWITCH
    && (!k.pending.active ==> k.pending == NO_PENDING)
  }

  /** The current task has been parked or has exited, but still runs. */
  ghost predicate Leaving(k: Kernel) {
    && Rest(k) && k.cur != k.idle
    && !k.procs[k.cur].state.Ready? && !k.procs[k.cur].state.Running?
    && (!Gone(k.procs[k.cur]) ==> k.onStack == k.procs[k.cur].stack)
  }

  /** The cyclic search takes the first Ready slot it meets. */
  lemma {:induction false} NextReadyFirst(ps: seq<Proc>, start: nat, offset: nat, d: nat) returns (e: nat)
    requires start < |ps| && offset <= d <= |ps| && ps[Around(|ps|, start, d)].state.Ready?
    ensures offset <= e <= d && NextReady(ps, start, offset) == Around(|ps|, start, e)
    decreases d - offset
  {
    if ps[Around(|ps|, start, offset)].state.Ready? {
      e := offset;
    } else {
      e := NextReadyFirst(ps, start, offset + 1, d);
    }
  }

  function Distance(n: nat, from: nat, to: nat): (d: nat)
    requires from < n && to < n
    ensures d < n && Around(n, from, d) == to
  {
    if to >= from then to - from else to + n - from
  }

  lemma {:induction false} SwitchPlaces(k: Kernel, next: nat)
    requires Rest(k) && next < |k.procs| && k.procs[next].state.Ready? && next != k.cur
    requires !Gone(k.procs[k.cur]) ==> k.onStack == k.procs[k.cur].stack
    ensures Placed(SwitchTo(k, next))
  {
    var k' := SwitchTo(k, next);
    forall i ensures ProcOk(k'.procs, next, i) { assert ProcOk(k.procs, k.cur, i); }
    assert ProcOk(k.procs, k.cur, next) && ProcOk(k.procs, k.cur, k.idle);
  }

  lemma {:induction false} RescheduleLeaves(k: Kernel)
    requires Leaving(k)
    ensures Placed(Reschedule(k)) && Reschedule(k).cur != k.cur
  {
    assert ProcOk(k.procs, k.cur, k.idle);
    var e := NextReadyFirst(k.procs, k.cur, 1, Distance(|k.procs|, k.cur, k.idle));
    SwitchPlaces(k, NextReady(k.procs, k.cur, 1));
  }

  lemma {:induction false} ReschedulePlaces(k: Kernel)
    requires Placed(k)
    ensures Placed(Reschedule(k))
  {
    var next := NextReady(k.procs, k.cur, 1);
    if next >= 0 {
      SwitchPlaces(k, next);
    }
  }

  predicate SameMachine(p: Proc, q: Proc) {
    && q.stack == p.stack && q.space == p.space && q.saved == p.saved && q.phase == p.phase
    && (q.state == p.state || (p.state.Blocked? && q.state.Ready?))
  }

  lemma {:induction false} AdoptOthers(ps: seq<Proc>, self: nat, init: nat)
    requires Family(ps) && self < |ps| && init < |ps| && self != init && ps[init].parent == -1
    ensures var q := Adopt(ps, self, init);
            && (forall i | 0 <= i < |q| && i != self :: SameMachine(ps[i], q[i]))
            && q[init].parent == -1
  {
    if ps[self].kids != [] {
      AdoptShape(ps, self, init);
      assert KidOk(ps, self, init);
      forall i: nat | i < |ps| && i != self ensures SameMachine(ps[i], Adopt(ps, self, init)[i]) {
        assert AdoptedAt(ps, Adopt(ps, self, init), self, init, i);
      }
    }
  }

  lemma {:induction false} DepartOthers(k: Kernel, code: int)
    requires k.cur < |k.procs| && k.init < |k.procs| && Family(k.procs)
    requires k.cur != k.init && !Gone(k.procs[k.cur]) && !Gone(k.procs[k.init]) && k.procs[k.init].parent == -1
    ensures var q := Depart(k, code).procs;
            && |q| == |k.procs|
            && (forall i | 0 <= i < |q| && i != k.cur :: SameMachine(k.procs[i], q[i]))
            && Gone(q[k.cur]) && q[k.init].parent == -1
            && q[k.cur].stack == 0 && q[k.cur].space == 0 && q[k.cur].phase == k.procs[k.cur].phase
  {
    var ps := k.procs[k.cur := k.procs[k.cur].(stack := 0, space := 0, exitCode := code)];
    FamilyKept(k.procs, ps);
    AdoptKeepsFamily(ps, k.cur, k.init);
    AdoptOthers(ps, k.cur, k.init);
    BuryOthers(Adopt(ps, k.cur, k.init), k.cur, k.init);
  }

  lemma {:induction false} BuryOthers(ps: seq<Proc>, self: nat, init: nat)
    requires Family(ps) && self < |ps| && init < |ps| && !Gone(ps[self])
    ensures var q := Bury(ps, self);
            && (forall i | 0 <= i < |q| && i != self :: SameMachine(ps[i], q[i]) && q[i].parent == ps[i].parent)
            && Gone(q[self]) && q[self].stack == ps[self].stack && q[self].space == ps[self].space
            && q[self].phase == ps[self].phase
  {
    assert ParentOk(ps, self) && KidOk(ps, ps[self].parent, self);
  }

  lemma {:induction false} DepartLeaves(k: Kernel, code: int)
    requires Placed(k) && Family(k.procs) && k.procs[k.cur].phase.Body? && k.cur != k.idle && k.cur != k.init
    ensures Leaving(Depart(k, code))
  {
    DepartOthers(k, code);
    var q := Depart(k, code).procs;
    assert ProcOk(k.procs, k.cur, k.idle);
    forall i ensures ProcOk(q, k.cur, i) { assert ProcOk(k.procs, k.cur, i); }
  }

  /** The current task is put to sleep, blocks, or blocks inside wait_for_child. */
  lemma {:induction false} ParkPlaces(k: Kernel, p: Proc)
    requires Placed(k) && k.cur != k.idle && (p.state.Blocked? || p.state.Sleeping?)
    requires p.stack == k.procs[k.cur].stack && p.parent == k.procs[k.cur].parent
    ensures Placed(Reschedule(k.(procs := k.procs[k.cur := p])))
  {
    var ps := k.procs[k.cur := p];
    forall i ensures ProcOk(ps, k.cur, i) { assert ProcOk(k.procs, k.cur, i); }
    RescheduleLeaves(k.(procs := ps));
  }

  lemma {:induction false} TickPlaces(k: Kernel)
    requires Placed(k)
    ensures Placed(TickStep(k))
  {
    var ps := WakeSleepers(k.procs, k.now + 1);
    WakePlaces(k, ps, 0);
    if k.tickCounter + 1 < TICKS_PER_SWITCH { WakePlaces(k, ps, k.tickCounter + 1); }
    ReschedulePlaces(k.(now := k.now + 1, procs := ps, tickCounter := 0));
  }

  lemma {:induction false} WakePlaces(k: Kernel, ps: seq<Proc>, counter: nat)
    requires Placed(k) && ps == WakeSleepers(k.procs, k.now + 1) && counter < TICKS_PER_SWITCH
    ensures Placed(k.(now := k.now + 1, procs := ps, tickCounter := counter))
  {
    forall i ensures ProcOk(ps, k.cur, i) { assert ProcOk(k.procs, k.cur, i); }
  }

  lemma {:induction false} CreatePlaces(k: Kernel, stack: nat, space: nat)
    requires Placed(k) && k.procs[k.cur].phase.Body?
    ensures Placed(CreateStep(k, stack, space))
  {
    var q := CreateStep(k, stack, space).procs;
    forall i ensures ProcOk(q, k.cur, i) { assert ProcOk(k.procs, k.cur, i); }
  }

  lemma {:induction false} WaitPlaces(k: Kernel)
    requires Placed(k) && Family(k.procs) && k.cur != k.idle
    requires k.procs[k.cur].phase.Body? || k.procs[k.cur].phase.Waiting?
    ensures Placed(WaitStep(k))
  {
    var self := k.procs[k.cur];
    if self.kids != [] || !self.phase.Body? {
      var n := FirstZombie(k.procs, self.kids);
      if n < |self.kids| {
        assert KidOk(k.procs, k.cur, self.kids[n]);
        var q := ReapChild(k, n).procs;
        forall i ensures ProcOk(q, k.cur, i) { assert ProcOk(k.procs, k.cur, i); }
      } else {
        ParkPlaces(k, self.(state := Blocked, phase := Waiting));
      }
    }
  }

  lemma {:induction false} UnblockPlaces(k: Kernel, slot: nat)
    requires Placed(k)
    ensures Placed(k.(procs := WakeSlot(k.procs, slot)))
  {
    var q := WakeSlot(k.procs, slot);
    forall i ensures ProcOk(q, k.cur, i) { assert ProcOk(k.procs, k.cur, i); }
  }

  lemma {:induction false} TrampolinePlaces(k: Kernel)
    requires Placed(k)
    ensures Placed(TrampolineStep(k))
  {
    var q := TrampolineStep(k).procs;
    forall i ensures ProcOk(q, k.cur, i) { assert ProcOk(k.procs, k.cur, i); }
  }

  lemma {:induction false} ExitPlaces(k: Kernel, code: int)
    requires Placed(k) && Family(k.procs) && k.procs[k.cur].phase.Body? && k.cur != k.idle && k.cur != k.init
    ensures Placed(Reschedule(Depart(k, code)))
  {
    DepartLeaves(k, code);
    RescheduleLeaves(Depart(k, code));
  }

  lemma {:induction false} StepPlaces(k: Kernel, step: Step)
    requires Placed(k) && Family(k.procs) && Enabled(k, step)
    ensures Placed(Apply(k, step))
  {
    match step {
      case Create(stack, space) => CreatePlaces(k, stack, space);
      case Exit(code) => ExitPlaces(k, code);
      case Wait => WaitPlaces(k);
      case Block => ParkPlaces(k, k.procs[k.cur].(state := Blocked));
      case Unblock(slot) => UnblockPlaces(k, slot);
      case Sleep(ticks) => ParkPlaces(k, k.procs[k.cur].(state := Sleeping, wakeTick := WakeAt(k.now, ticks)));
      case Yield => ReschedulePlaces(k);
      case Tick => TickPlaces(k);
      case Trampoline => TrampolinePlaces(k);
    }
  }
}

/** Kernel stacks and address spaces of exited tasks: each is released exactly once,
    and never while the processor still runs on it. */
module TaskResources {
  import opened TaskModel
  import opened TaskInvariants

  lemma {:induction false} HeldByUpdate(ps: seq<Proc>, i: nat, p: Proc, r: Resource)
    requires i < |ps|
    ensures HeldBy(ps[i := p], r) + Holds(ps[i], r) == HeldBy(ps, r) + Holds(p, r)
  {
    var last := |ps| - 1;
    var q := ps[i := p];
    if i == last {
      assert q[..last] == ps[..last];
    } else {
      assert q[..last] == ps[..last][i := p];
      HeldByUpdate(ps[..last], i, p, r);
    }
  }

  lemma {:induction false} HeldBySame(ps: seq<Proc>, q: seq<Proc>, r: Resource)
    requires |q| == |ps| && forall i | 0 <= i < |ps| :: SameHolding(ps[i], q[i])
    ensures HeldBy(q, r) == HeldBy(ps, r)
  {
    if ps != [] {
      HeldBySame(ps[..|ps| - 1], q[..|q| - 1], r);
      assert SameHolding(ps[|ps| - 1], q[|ps| - 1]);
    }
  }

  predicate SameHolding(p: Proc, q: Proc) {
    && q.stack == p.stack && q.space == p.space
    && (p.phase.Taken? || p.phase.Freed? || q.phase.Taken? || q.phase.Freed? ==> q.phase == p.phase)
  }

  /** No two tasks, nor a task and the cleanup slot, share `r`; every time `r` was given
      to a task it is still held in one place or has been released, the numbers agreeing. */
  predicate AccountedFor(k: Kernel, r: Resource) {
    && Held(k, r) <= 1
    && (r == Space(k.kernelSpace) ==> Held(k, r) == 0)
    && Acquired(k.trace, r) == Held(k, r) + Released(k.trace, r)
  }

  /** A release never hits the stack or the address space in use at that moment. */
  predicate SafeEvent(e: Event) {
    match e
    case FreeStack(stack, inUse) => stack != inUse
    case FreeSpace(space, loaded) => space != loaded
    case _ => true
  }

  predicate SafeTrace(t: seq<Event>) {
    forall n | 0 <= n < |t| :: SafeEvent(t[n])
  }

  ghost predicate Accounted(k: Kernel) {
    && (forall r {:trigger AccountedFor(k, r)} :: AccountedFor(k, r))
    && SafeTrace(k.trace)
  }

  lemma {:induction false} TraceAppend(t: seq<Event>, e: Event, r: Resource)
    ensures Acquired(t + [e], r) == Acquired(t, r) + Acquires(e, r)
    ensures Released(t + [e], r) == Released(t, r) + Releases(e, r)
  {
    assert (t + [e])[..|t|] == t;
  }

  lemma {:induction false} ReleaseTrace(t: seq<Event>, stack: nat, space: nat, inUse: nat, loaded: nat, r: Resource)
    ensures var t' := t + ReleaseEvents(stack, space, inUse, loaded);
            Acquired(t', r) == Acquired(t, r) && Released(t', r) == Released(t, r) + Count(stack, space, r)
  {
    var first := if stack != 0 then [FreeStack(stack, inUse)] else [];
    var second := if space != 0 then [FreeSpace(space, loaded)] else [];
    assert t + (first + second) == (t + first) + second;
    if stack != 0 { TraceAppend(t, first[0], r); } else { assert t + first == t; }
    if space != 0 { TraceAppend(t + first, second[0], r); } else { assert t + first + second == t + first; }
  }

  /** What one task holds is part of everything held. */
  lemma {:induction false} HoldsPart(k: Kernel, i: nat, r: Resource)
    requires i < |k.procs|
    ensures Held(k, r) >= Holds(k.procs[i], r) + Count(k.pending.stack, k.pending.space, r)
  {
    HeldByUpdate(k.procs, i, k.procs[i].(stack := 0, space := 0, phase := Body), r);
  }

  lemma {:induction false} ReapAccounts(k: Kernel)
    requires k.cur < |k.procs| && Accounted(k) && k.kernelSpace != 0
    requires k.onStack == k.procs[k.cur].stack && k.loaded == Target(k, k.procs[k.cur].space)
    ensures Accounted(Reap(k))
  {
    if k.pending.active {
      var k' := Reap(k);
      forall r ensures AccountedFor(k', r) {
        assert AccountedFor(k, r);
        ReleaseTrace(k.trace, k.pending.stack, k.pending.space, k.onStack, k.loaded, r);
      }
      assert AccountedFor(k, Stack(k.pending.stack)) && AccountedFor(k, Space(k.pending.space));
      HoldsPart(k, k.cur, Stack(k.pending.stack));
      HoldsPart(k, k.cur, Space(k.pending.space));
    }
  }

  lemma {:induction false} SameHoldings(k: Kernel, k': Kernel)
    requires Accounted(k) && |k'.procs| == |k.procs|
    requires forall i | 0 <= i < |k.procs| :: SameHolding(k.procs[i], k'.procs[i])
    requires k'.pending == k.pending && k'.trace == k.trace && k'.kernelSpace == k.kernelSpace
    ensures Accounted(k')
  {
    forall r ensures AccountedFor(k', r) {
      assert AccountedFor(k, r);
      HeldBySame(k.procs, k'.procs, r);
    }
  }

  /** An event that neither gives nor releases anything. */
  lemma {:induction false} EventAccounts(k: Kernel, e: Event)
    requires Accounted(k) && (e.Exited? || e.Delivered?)
    ensures Accounted(k.(trace := k.trace + [e]))
  {
    var k' := k.(trace := k.trace + [e]);
    forall r ensures AccountedFor(k', r) {
      assert AccountedFor(k, r);
      TraceAppend(k.trace, e, r);
    }
  }

  lemma {:induction false} SwitchAccounts(k: Kernel, next: nat)
    requires Rest(k) && Accounted(k) && next < |k.procs| && next != k.cur && k.procs[next].state.Ready?
    ensures Accounted(SwitchTo(k, next))
  {
    var k' := SwitchContext(k, next);
    assert ProcOk(k.procs, k.cur, next);
    SameHoldings(k, k');
    if !k.procs[next].phase.NotStarted? {
      ReapAccounts(k');
    }
  }

  lemma {:induction false} RescheduleAccounts(k: Kernel)
    requires Rest(k) && Accounted(k) && !k.procs[k.cur].state.Ready?
    ensures Accounted(Reschedule(k))
  {
    var next := NextReady(k.procs, k.cur, 1);
    if next >= 0 {
      SwitchAccounts(k, next);
    }
  }

  /** One task hands over everything it has. */
  lemma {:induction false} HandOver(ps: seq<Proc>, q: seq<Proc>, i: nat, r: Resource)
    requires i < |ps| == |q| && EmptyHanded(q[i]) && ps[i].phase.Body?
    requires forall j | 0 <= j < |ps| && j != i :: SameHolding(ps[j], q[j])
    ensures HeldBy(q, r) + Count(ps[i].stack, ps[i].space, r) == HeldBy(ps, r)
  {
    HeldBySame(ps[i := q[i]], q, r);
    HeldByUpdate(ps, i, q[i], r);
  }

  lemma {:induction false} DepartAccounts(k: Kernel, code: int)
    requires Placed(k) && Family(k.procs) && Accounted(k)
    requires k.procs[k.cur].phase.Body? && k.cur != k.idle && k.cur != k.init
    ensures Accounted(Depart(k, code))
  {
    DepartOthers(k, code);
    var k' := Depart(k, code);
    var self := k.procs[k.cur];
    var k1 := k.(procs := k'.procs, pending := k'.pending);
    assert forall j | 0 <= j < |k.procs| && j != k.cur :: SameHolding(k.procs[j], k1.procs[j]);
    assert EmptyHanded(k1.procs[k.cur]);
    forall r ensures AccountedFor(k1, r) {
      assert AccountedFor(k, r);
      HandOver(k.procs, k1.procs, k.cur, r);
    }
    EventAccounts(k1, Exited(self.pid, code));
  }

  lemma {:induction false} CreateAccounts(k: Kernel, stack: nat, space: nat)
    requires Placed(k) && Accounted(k) && Enabled(k, Create(stack, space))
    ensures Accounted(CreateStep(k, stack, space))
  {
    var i := FreeSlot(k.procs, 0);
    if i >= 0 && stack != 0 {
      var k' := CreateStep(k, stack, space);
      var child := k'.procs[i];
      assert ProcOk(k.procs, k.cur, i);
      forall r ensures AccountedFor(k', r) {
        assert AccountedFor(k, r);
        HeldByUpdate(k.procs, i, child, r);
        HeldBySame(k.procs[i := child], k'.procs, r);
        TraceAppend(k.trace, Spawned(child.pid, stack, space), r);
      }
    }
  }

  lemma {:induction false} ParkAccounts(k: Kernel, p: Proc)
    requires Placed(k) && Accounted(k) && k.cur != k.idle && (p.state.Blocked? || p.state.Sleeping?)
    requires p.parent == k.procs[k.cur].parent && SameHolding(k.procs[k.cur], p)
    ensures Accounted(Reschedule(k.(procs := k.procs[k.cur := p])))
  {
    var ps := k.procs[k.cur := p];
    SameHoldings(k, k.(procs := ps));
    forall i ensures ProcOk(ps, k.cur, i) { assert ProcOk(k.procs, k.cur, i); }
    RescheduleAccounts(k.(procs := ps));
  }

  lemma {:induction false} WaitAccounts(k: Kernel)
    requires Placed(k) && Family(k.procs) && Accounted(k) && k.cur != k.idle
    requires k.procs[k.cur].phase.Body? || k.procs[k.cur].phase.Waiting?
    ensures Accounted(WaitStep(k))
  {
    var self := k.procs[k.cur];
    if self.kids != [] || self.phase.Waiting? {
      var n := FirstZombie(k.procs, self.kids);
      if n < |self.kids| {
        var child := k.procs[self.kids[n]];
        var k1 := k.(procs := ReapChild(k, n).procs);
        SameHoldings(k, k1);
        EventAccounts(k1, Delivered(child.pid, child.exitCode, self.pid));
      } else {
        ParkAccounts(k, self.(state := Blocked, phase := Waiting));
      }
    }
  }

  lemma {:induction false} TickAccounts(k: Kernel)
    requires Placed(k) && Accounted(k)
    ensures Accounted(TickStep(k))
  {
    var k1 := k.(now := k.now + 1, procs := WakeSleepers(k.procs, k.now + 1), tickCounter := 0);
    SameHoldings(k, k1);
    forall i ensures ProcOk(k1.procs, k.cur, i) { assert ProcOk(k.procs, k.cur, i); }
    RescheduleAccounts(k1);
    SameHoldings(k, k1.(tickCounter := k.tickCounter + 1));
  }

  /** The trampoline releases the stack it took over. */
  lemma {:induction false} FreeStackAccounts(k: Kernel)
    requires Placed(k) && Accounted(k) && k.procs[k.cur].phase.Taken?
    ensures Accounted(TrampolineStep(k))
  {
    var k' := TrampolineStep(k);
    var stack := k.procs[k.cur].phase.takenStack;
    forall r ensures AccountedFor(k', r) {
      assert AccountedFor(k, r);
      HeldByUpdate(k.procs, k.cur, k'.procs[k.cur], r);
      ReleaseTrace(k.trace, stack, 0, k.onStack, k.loaded, r);
    }
    assert AccountedFor(k, Stack(stack));
    HoldsPart(k, k.cur, Stack(stack));
  }

  /** The trampoline releases the address space it took over. */
  lemma {:induction false} FreeSpaceAccounts(k: Kernel)
    requires Placed(k) && Accounted(k) && k.procs[k.cur].phase.Freed?
    ensures Accounted(TrampolineStep(k))
  {
    var k' := TrampolineStep(k);
    var space := k.procs[k.cur].phase.freedSpace;
    forall r ensures AccountedFor(k', r) {
      assert AccountedFor(k, r);
      HeldByUpdate(k.procs, k.cur, k'.procs[k.cur], r);
      ReleaseTrace(k.trace, 0, space, k.onStack, k.loaded, r);
    }
    assert AccountedFor(k, Space(space));
    HoldsPart(k, k.cur, Space(space));
  }

  lemma {:induction false} TrampolineAccounts(k: Kernel)
    requires Placed(k) && Accounted(k)
    ensures Accounted(TrampolineStep(k))
  {
    match k.procs[k.cur].phase {
      case Taken(_, _) => FreeStackAccounts(k);
      case Freed(_) => FreeSpaceAccounts(k);
      case Checked =>
        var k' := TrampolineStep(k);
        forall r ensures AccountedFor(k', r) {
          assert AccountedFor(k, r);
          HeldByUpdate(k.procs, k.cur, k'.procs[k.cur], r);
        }
      case _ => SameHoldings(k, TrampolineStep(k));
    }
  }

  lemma {:induction false} ExitAccounts(k: Kernel, code: int)
    requires Placed(k) && Family(k.procs) && Accounted(k)
    requires k.procs[k.cur].phase.Body? && k.cur != k.idle && k.cur != k.init
    ensures Accounted(Reschedule(Depart(k, code)))
  {
    DepartAccounts(k, code);
    DepartLeaves(k, code);
    RescheduleAccounts(Depart(k, code));
  }

  lemma {:induction false} StepAccounts(k: Kernel, step: Step)
    requires Placed(k) && Family(k.procs) && Accounted(k) && Enabled(k, step)
    ensures Accounted(Apply(k, step))
  {
    match step {
      case Create(stack, space) => CreateAccounts(k, stack, space);
      case Exit(code) => ExitAccounts(k, code);
      case Wait => WaitAccounts(k);
      case Block => ParkAccounts(k, k.procs[k.cur].(state := Blocked));
      case Unblock(slot) => SameHoldings(k, k.(procs := WakeSlot(k.procs, slot)));
      case Sleep(ticks) => ParkAccounts(k, k.procs[k.cur].(state := Sleeping, wakeTick := WakeAt(k.now, ticks)));
      case Yield => RescheduleAccounts(k);
      case Tick => TickAccounts(k);
      case Trampoline => TrampolineAccounts(k);
    }
  }
}

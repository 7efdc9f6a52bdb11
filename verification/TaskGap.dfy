/** wait_for_child of kernel/task.cpp taken apart: a kernel task runs it with interrupts on, so
    that other tasks may run between the scan of the child list and block_current. */
module TaskGap {
  import opened TaskModel
  import opened TaskInvariants
  import opened TaskRuns

  /** block_current as the loop of wait_for_child calls it, whatever the scan before it saw. */
  function BlockInWait(k: Kernel): Kernel
    requires k.cur < |k.procs|
  {
    Reschedule(k.(procs := k.procs[k.cur := k.procs[k.cur].(state := Blocked, phase := Waiting)]))
  }

  /** A scan of the task's children at this moment finds nobody to collect. */
  predicate FindsNone(k: Kernel, i: nat) {
    i < |k.procs| && FirstZombie(k.procs, k.procs[i].kids) == |k.procs[i].kids|
  }

  /** The task is blocked in wait_for_child although a child waits to be collected. */
  ghost predicate Missed(k: Kernel, i: nat) {
    i < |k.procs| && WaitsBlocked(k.procs[i]) && exists c | c in k.procs[i].kids ::
        Live(k.procs, c) && k.procs[c].state.Zombie?
  }

  lemma {:induction false} SomeZombie(k: Kernel, i: nat)
    requires Family(k.procs) && i < |k.procs|
    ensures FindsNone(k, i) <==> forall c | c in k.procs[i].kids :: !(Live(k.procs, c) && k.procs[c].state.Zombie?)
  {
    var ids := k.procs[i].kids;
    var n := FirstZombie(k.procs, ids);
    if n < |ids| { assert ids[n] in ids; }
  }

  /** Rescheduling changes who runs, not who is related to whom, blocked or a Zombie. */
  lemma {:induction false} RescheduleRest(k: Kernel, i: nat)
    requires k.cur < |k.procs| && !k.procs[k.cur].state.Ready? && i < |k.procs|
    ensures var p, q := k.procs[i], Reschedule(k).procs[i];
            |Reschedule(k).procs| == |k.procs| && q.kids == p.kids && q.parent == p.parent
            && (q.state.Zombie? <==> p.state.Zombie?) && (q.state.Dead? <==> p.state.Dead?)
            && (q.state.Blocked? <==> p.state.Blocked?) && (WaitsBlocked(q) <==> WaitsBlocked(p))
  {
  }

  /** With the gap closed the two parts are the wait step. */
  lemma {:induction false} ClosedGap(k: Kernel)
    requires Good(k) && CanStep(k, Wait) && FindsNone(k, k.cur)
             && (k.procs[k.cur].phase.Waiting? || k.procs[k.cur].kids != [])
    ensures BlockInWait(k) == Apply(k, Wait) && !Missed(BlockInWait(k), k.cur)
  {
    GapExact(k);
  }

  /** Blocking misses a child exactly if one is a Zombie by then, whatever the scan saw. */
  lemma {:induction false} GapExact(k: Kernel)
    requires Good(k) && CanStep(k, Wait)
    ensures Missed(BlockInWait(k), k.cur) <==> !FindsNone(k, k.cur)
  {
    var k1 := k.(procs := k.procs[k.cur := k.procs[k.cur].(state := Blocked, phase := Waiting)]);
    var k' := BlockInWait(k);
    SomeZombie(k, k.cur);
    RescheduleRest(k1, k.cur);
    forall c | c in k.procs[k.cur].kids
      ensures Live(k'.procs, c) && k'.procs[c].state.Zombie? <==> Live(k.procs, c) && k.procs[c].state.Zombie?
    {
      assert KidOk(k.procs, k.cur, c);
      RescheduleRest(k1, c);
    }
  }

  /** A child that exits while its parent is not blocked wakes nobody: it is a Zombie on the list,
      and the parent runs on with what it knew. */
  lemma {:induction false} ExitUnnoticed(k: Kernel, code: int)
    requires Good(k) && CanStep(k, Exit(code)) && 0 <= k.procs[k.cur].parent < |k.procs|
    requires !k.procs[k.procs[k.cur].parent].state.Blocked?
    ensures var k', p := Apply(k, Exit(code)), k.procs[k.cur].parent;
            && p < |k'.procs| && !k'.procs[p].state.Blocked?
            && k'.procs[k.cur].state.Zombie? && k.cur in k'.procs[p].kids && !FindsNone(k', p)
  {
    var k', c, p := Apply(k, Exit(code)), k.cur, k.procs[k.cur].parent;
    StepKeepsGood(k, Exit(code));
    assert ParentOk(k.procs, c) && KidOk(k.procs, p, c);
    DepartedChild(k, code);
    RescheduleRest(Depart(k, code), c);
    RescheduleRest(Depart(k, code), p);
    assert ParentOk(k'.procs, c);
    SomeZombie(k', p);
  }

  lemma {:induction false} DepartedChild(k: Kernel, code: int)
    requires Good(k) && CanStep(k, Exit(code)) && 0 <= k.procs[k.cur].parent < |k.procs|
    requires !k.procs[k.procs[k.cur].parent].state.Blocked?
    ensures var q, p := Depart(k, code).procs, k.procs[k.cur].parent;
            && p < |q| && q[k.cur].state.Zombie? && q[k.cur].parent == p && p != k.cur
            && !q[p].state.Blocked?
  {
    var c, p := k.cur, k.procs[k.cur].parent;
    assert ParentOk(k.procs, c) && KidOk(k.procs, p, c) && KidOk(k.procs, c, c) && KidOk(k.procs, c, p);
  }

  /** The lost wake-up: a child exits between its parent's scan and block_current. However little
      the scan saw, the parent then sleeps with a child to collect. */
  lemma {:induction false} LostWakeup(k: Kernel, code: int)
    requires Good(k) && CanStep(k, Exit(code)) && 0 <= k.procs[k.cur].parent < |k.procs|
    requires !k.procs[k.procs[k.cur].parent].state.Blocked?
    requires var k' := Apply(k, Exit(code)); k'.cur == k.procs[k.cur].parent && CanStep(k', Wait)
    ensures Missed(BlockInWait(Apply(k, Exit(code))), k.procs[k.cur].parent)
  {
    StepKeepsGood(k, Exit(code));
    ExitUnnoticed(k, code);
    GapExact(Apply(k, Exit(code)));
  }

  // ----- a run that loses one

  datatype Trail = Trail(states: seq<Kernel>, steps: seq<Step>)

  ghost predicate EndsIn(h: Trail, k: Kernel) {
    IsRun(h.states, h.steps) && h.states[|h.steps|] == k
  }

  ghost predicate Reachable(k: Kernel) {
    exists h :: EndsIn(h, k)
  }

  lemma {:induction false} ReachBoot(k: Kernel)
    requires IsBoot(k)
    ensures Reachable(k)
  {
    assert EndsIn(Trail([k], []), k);
  }

  lemma {:induction false} ReachStep(k: Kernel, step: Step)
    requires Reachable(k) && CanStep(k, step)
    ensures Reachable(Apply(k, step))
  {
    var h :| EndsIn(h, k);
    var h' := Trail(h.states + [Apply(k, step)], h.steps + [step]);
    forall n ensures StepsAt(h'.states, h'.steps, n) { assert StepsAt(h.states, h.steps, n); }
    assert EndsIn(h', Apply(k, step));
  }

  lemma {:induction false} ReachGood(k: Kernel)
    requires Reachable(k)
    ensures Good(k)
  {
    var h :| EndsIn(h, k);
    ReachableGood(h.states, h.steps, |h.steps|);
  }

  predicate NobodySleeps(ps: seq<Proc>) {
    forall i | 0 <= i < |ps| :: !ps[i].state.Sleeping?
  }

  lemma {:induction false} OneTick(k: Kernel)
    requires Reachable(k) && k.cur < |k.procs| <= 255 && k.init < |k.procs| && NobodySleeps(k.procs)
    ensures k.tickCounter < 4 ==> Reachable(k.(now := k.now + 1, tickCounter := k.tickCounter + 1))
    ensures k.tickCounter == 4 ==> Reachable(Reschedule(k.(now := k.now + 1, tickCounter := 0)))
  {
    assert WakeSleepers(k.procs, k.now + 1) == k.procs;
    ReachStep(k, Tick);
  }

  /** Five ticks while nobody sleeps: one rescheduling. */
  lemma {:induction false} FiveTicks(k: Kernel)
    requires Reachable(k) && k.cur < |k.procs| <= 255 && k.init < |k.procs| && k.tickCounter == 0
             && NobodySleeps(k.procs)
    ensures Reachable(Reschedule(k.(now := k.now + 5)))
  {
    OneTick(k);
    OneTick(k.(now := k.now + 1, tickCounter := 1));
    OneTick(k.(now := k.now + 2, tickCounter := 2));
    OneTick(k.(now := k.now + 3, tickCounter := 3));
    OneTick(k.(now := k.now + 4, tickCounter := 4));
  }

  /** The parent's scan finds nobody; before it blocks, ticks pass the processor on to the child,
      which exits; the parent, no further than before, blocks. */
  lemma {:induction false} LosesOne() returns (scanned: Kernel, k: Kernel)
    ensures Reachable(scanned) && scanned.cur == 0 && CanStep(scanned, Wait) && FindsNone(scanned, 0)
    ensures Reachable(k) && k.cur == 0 && CanStep(k, Wait) && k.procs[0] == scanned.procs[0]
    ensures Missed(BlockInWait(k), 0)
  {
    var boot := Boot(4, 1, 2, 9);
    ReachBoot(boot);
    scanned := WithChild(boot);
    var child := ToChild(scanned);
    k := ChildExits(child);
    ReachGood(k);
    SomeZombie(k, 0);
    GapExact(k);
  }

  lemma {:induction false} WithChild(boot: Kernel) returns (k: Kernel)
    requires Reachable(boot) && boot == Boot(4, 1, 2, 9)
    ensures Reachable(k) && k.cur == 0 && k.tickCounter == 0 && k.pending == NO_PENDING && |k.procs| == 4
            && k.onStack == 0
    ensures k.idle == 1 && k.init == 2 && k.kernelSpace == 9
    ensures k.procs[0].state.Running? && k.procs[0].phase.Body? && k.procs[0].kids == [3] && k.procs[0].saved == 0
    ensures forall i | 1 <= i < 4 :: k.procs[i].state.Ready? && k.procs[i].phase.NotStarted? && k.procs[i].kids == []
    ensures k.procs[3].parent == 0 && FindsNone(k, 0)
  {
    var ps := boot.procs;
    assert ps == [ps[0], ps[1], ps[2], ps[3]];
    assert HeldBy(ps, Stack(3)) == 0 by { FourHold(ps, Stack(3)); }
    assert HeldBy(ps, Space(0)) == 0 by { FourHold(ps, Space(0)); }
    assert FreeSlot(ps, 2) == 3;
    assert FreeSlot(ps, 1) == 3;
    assert FreeSlot(ps, 0) == 3;
    ReachStep(boot, Create(3, 0));
    k := Apply(boot, Create(3, 0));
    assert k.procs[0].kids == [3];
  }

  lemma {:induction false} FourHold(ps: seq<Proc>, r: Resource)
    requires |ps| == 4
    ensures HeldBy(ps, r) == Holds(ps[0], r) + Holds(ps[1], r) + Holds(ps[2], r) + Holds(ps[3], r)
  {
    ThreeHold(ps[0], ps[1], ps[2], r);
    assert ps[..3] == [ps[0], ps[1], ps[2]];
  }

  /** Three times five ticks, and the child has the processor. */
  lemma {:induction false} ToChild(k: Kernel) returns (k': Kernel)
    requires Reachable(k) && k.cur == 0 && k.tickCounter == 0 && k.pending == NO_PENDING && |k.procs| == 4
             && k.onStack == 0
    requires k.idle == 1 && k.init == 2 && k.procs[0].state.Running? && k.procs[0].phase.Body? && k.procs[0].saved == 0
    requires forall i | 1 <= i < 4 :: k.procs[i].state.Ready? && k.procs[i].phase.NotStarted?
    ensures Reachable(k') && k'.cur == 3 && |k'.procs| == 4 && k'.pending == NO_PENDING && k'.idle == 1 && k'.init == 2
    ensures k'.procs[0] == k.procs[0].(state := Ready)
    ensures k'.procs[3] == k.procs[3].(state := Running, phase := Entry)
  {
    var k1 := NextStarts(k);
    var k2 := NextStarts(k1);
    k' := NextStarts(k2);
  }

  /** Five ticks, and the task in the next slot starts. */
  lemma {:induction false} NextStarts(k: Kernel) returns (k': Kernel)
    requires Reachable(k) && k.cur + 1 < |k.procs| <= 255 && k.init < |k.procs| && k.tickCounter == 0
             && NobodySleeps(k.procs)
    requires k.procs[k.cur].state.Running? && k.procs[k.cur + 1].state.Ready? && k.procs[k.cur + 1].phase.NotStarted?
    ensures Reachable(k') && k'.cur == k.cur + 1 && k'.tickCounter == 0 && k'.onStack == k.procs[k.cur + 1].saved
    ensures k'.pending == k.pending && k'.idle == k.idle && k'.init == k.init
    ensures k'.procs == k.procs[k.cur := k.procs[k.cur].(state := Ready, saved := k.onStack)]
                               [k.cur + 1 := k.procs[k.cur + 1].(state := Running, phase := Entry)]
  {
    FiveTicks(k);
    k' := Reschedule(k.(now := k.now + 5));
  }

  /** The child starts, exits, and its parent is next. */
  lemma {:induction false} ChildExits(k: Kernel) returns (k': Kernel)
    requires Reachable(k) && k.cur == 3 && |k.procs| == 4 && k.pending == NO_PENDING && k.idle == 1 && k.init == 2
    requires k.procs[0].state.Ready? && k.procs[0].phase.Body? && k.procs[0].kids == [3] && k.procs[0].saved == 0
    requires k.procs[3].state.Running? && k.procs[3].phase.Entry? && k.procs[3].kids == [] && k.procs[3].parent == 0
    ensures Reachable(k') && k'.cur == 0 && |k'.procs| == 4 && CanStep(k', Wait)
    ensures k'.procs[0] == k.procs[0].(state := Running) && k'.procs[3].state.Zombie?
  {
    ReachStep(k, Trampoline);
    var k1 := Apply(k, Trampoline);
    ReachStep(k1, Exit(0));
    k' := Apply(k1, Exit(0));
  }
}

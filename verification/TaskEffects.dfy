/** What each call of kernel/task.cpp and kernel/scheduler.cpp does, said of the states before and
    after it, field by field, and what follows for a task that sleeps. */
module TaskEffects {
  import opened Pids
  import opened TaskModel
  import opened TaskInvariants
  import opened TaskResources
  import opened TaskRuns
  import opened TaskFairness

  // ----- handing over the processor

  /** Slot n is the Ready one next after the running slot, in cyclic order. */
  ghost predicate Nearest(k: Kernel, n: nat) {
    && k.cur < |k.procs| && IsReady(k, n) && n != k.cur
    && forall j: nat | IsReady(k, j) && j != k.cur ::
         Distance(|k.procs|, k.cur, n) <= Distance(|k.procs|, k.cur, j)
  }

  ghost predicate NobodyReady(k: Kernel) {
    forall j: nat | j != k.cur :: !IsReady(k, j)
  }

  /** Everything but the tasks, the current slot, stack and CR3, the cleanup slot and the trace. */
  predicate SameClock(k: Kernel, k': Kernel) {
    && k'.now == k.now && k'.tickCounter == k.tickCounter
    && k'.idle == k.idle && k'.init == k.init && k'.kernelSpace == k.kernelSpace
  }

  /** Every slot but a and b is as it was. */
  predicate SameBut(k: Kernel, k': Kernel, a: nat, b: nat) {
    |k'.procs| == |k.procs| && forall i | 0 <= i < |k.procs| && i != a && i != b :: k'.procs[i] == k.procs[i]
  }

  /** A task that resumes in switch_to releases what an exited one left; a new task does not yet. */
  predicate Cleaned(k: Kernel, k': Kernel, starts: bool) {
    if starts || !k.pending.active then k'.pending == k.pending && k'.trace == k.trace
    else
      && k'.pending == Pending(0, 0, false)
      && k'.trace == k.trace + (if k.pending.stack != 0 then [FreeStack(k.pending.stack, k'.onStack)] else [])
                             + if k.pending.space != 0 then [FreeSpace(k.pending.space, k'.loaded)] else []
  }

  /** From k the processor goes to task n: on its stack, in its address space. */
  predicate Switched(k: Kernel, k': Kernel, n: nat) {
    && k.cur < |k.procs| && n < |k.procs| && n != k.cur && k'.cur == n && SameBut(k, k', k.cur, n) && SameClock(k, k')
    && var prev, p := k.procs[k.cur], k.procs[n];
       && k'.procs[k.cur] == prev.(state := if prev.state.Running? then Ready else prev.state, saved := k.onStack)
       && k'.procs[n] == p.(state := Running, phase := if p.phase.NotStarted? then Entry else p.phase)
       && k'.onStack == p.saved && k'.loaded == (if p.space != 0 then p.space else k.kernelSpace)
       && Cleaned(k, k', p.phase.NotStarted?)
  }

  /** The task to run next gets the processor; with none the caller keeps it. */
  ghost predicate HandsOver(k: Kernel, k': Kernel) {
    if NobodyReady(k) then k' == k else Nearest(k, k'.cur) && Switched(k, k', k'.cur)
  }

  lemma {:induction false} SwitchHandsOver(k: Kernel, n: nat)
    requires k.cur < |k.procs| && n < |k.procs| && n != k.cur
    ensures Switched(k, TaskModel.SwitchTo(k, n), n)
  {
    var k' := TaskModel.SwitchTo(k, n);
    if k.pending.active && !k.procs[n].phase.NotStarted? {
      var t, a, b := k.trace, if k.pending.stack != 0 then [FreeStack(k.pending.stack, k'.onStack)] else [],
                     if k.pending.space != 0 then [FreeSpace(k.pending.space, k'.loaded)] else [];
      assert t + (a + b) == t + a + b;
    }
  }

  lemma {:induction false} RescheduleHandsOver(k: Kernel)
    requires k.cur < |k.procs| && !k.procs[k.cur].state.Ready?
    ensures HandsOver(k, Reschedule(k))
  {
    var len, next := |k.procs|, NextReady(k.procs, k.cur, 1);
    forall j: nat | IsReady(k, j) && j != k.cur
      ensures next >= 0 && next != k.cur && Distance(len, k.cur, next) <= Distance(len, k.cur, j)
    {
      var e := NextReadyFirst(k.procs, k.cur, 1, Distance(len, k.cur, j));
      assert Around(len, k.cur, e) == next;
    }
    if next >= 0 {
      assert IsReady(k, next);
      SwitchHandsOver(k, next);
    }
  }

  function Put(k: Kernel, p: Proc): Kernel
    requires k.cur < |k.procs|
  {
    k.(procs := k.procs[k.cur := p])
  }

  /** Whoever gives up the processor finds somebody to take it: idle at least. */
  lemma {:induction false} Gives(k: Kernel, p: Proc)
    requires Good(k) && k.cur != k.idle && !p.state.Ready?
    ensures HandsOver(Put(k, p), Reschedule(Put(k, p))) && Reschedule(Put(k, p)).cur != k.cur
  {
    RescheduleHandsOver(Put(k, p));
    assert ProcOk(k.procs, k.cur, k.idle) && IsReady(Put(k, p), k.idle);
  }

  /** block_current. */
  lemma {:induction false} BlockEffect(k: Kernel)
    requires Good(k) && CanStep(k, Block)
    ensures HandsOver(Put(k, k.procs[k.cur].(state := Blocked)), Apply(k, Block)) && Apply(k, Block).cur != k.cur
  {
    Gives(k, k.procs[k.cur].(state := Blocked, wakeTick := k.procs[k.cur].wakeTick));
  }

  /** sleep_current. */
  lemma {:induction false} SleepEffect(k: Kernel, ticks: nat)
    requires Good(k) && CanStep(k, Sleep(ticks))
    ensures var p := k.procs[k.cur].(state := Sleeping, wakeTick := (k.now + ticks) % TWO_64);
            HandsOver(Put(k, p), Apply(k, Sleep(ticks))) && Apply(k, Sleep(ticks)).cur != k.cur
  {
    Gives(k, k.procs[k.cur].(state := Sleeping, wakeTick := WakeAt(k.now, ticks)));
  }

  /** yield. */
  lemma {:induction false} YieldEffect(k: Kernel)
    requires Good(k) && CanStep(k, Yield)
    ensures HandsOver(k, Apply(k, Yield))
  {
    RescheduleHandsOver(k);
  }

  /** unblock: a Blocked task becomes Ready, and nothing else happens. */
  lemma {:induction false} UnblockEffect(k: Kernel, slot: nat)
    requires CanStep(k, Unblock(slot))
    ensures var blocked, k' := slot < |k.procs| && k.procs[slot].state.Blocked?, Apply(k, Unblock(slot));
            k' == if blocked then k.(procs := k.procs[slot := k.procs[slot].(state := Ready)]) else k
  {
  }

  // ----- wait_for_child

  predicate IsZombie(k: Kernel, c: nat) {
    c < |k.procs| && k.procs[c].state.Zombie?
  }

  ghost predicate HasZombie(k: Kernel) {
    k.cur < |k.procs| && exists c | c in k.procs[k.cur].kids :: IsZombie(k, c)
  }

  /** Child c, the n-th on the caller's list, is collected: the first Zombie there. */
  predicate Collected(k: Kernel, k': Kernel, n: nat) {
    && k.cur < |k.procs| && n < |k.procs[k.cur].kids|
    && var self, c := k.procs[k.cur], k.procs[k.cur].kids[n];
       && IsZombie(k, c) && (forall m | 0 <= m < n :: !IsZombie(k, self.kids[m])) && c != k.cur
       && SameBut(k, k', k.cur, c) && SameClock(k, k') && k'.cur == k.cur && k'.onStack == k.onStack
       && k'.loaded == k.loaded && k'.pending == k.pending
       && k'.trace == k.trace + [Delivered(k.procs[c].pid, k.procs[c].exitCode, self.pid)]
       && k'.procs[c] == k.procs[c].(state := Dead, parent := -1)
       && k'.procs[k.cur] == self.(kids := self.kids[..n] + self.kids[n + 1..], phase := Body)
  }

  lemma {:induction false} ZombieFound(k: Kernel)
    requires Good(k) && CanStep(k, Wait)
    ensures HasZombie(k) <==> FirstZombie(k.procs, k.procs[k.cur].kids) < |k.procs[k.cur].kids|
  {
    var ids := k.procs[k.cur].kids;
    var n := FirstZombie(k.procs, ids);
    if n < |ids| {
      assert ids[n] in ids && IsZombie(k, ids[n]);
    } else {
      forall c | c in ids ensures !IsZombie(k, c) { assert KidOk(k.procs, k.cur, c); }
    }
  }

  /** A wait with a child that has exited collects the first such child, and returns. */
  lemma {:induction false} WaitCollects(k: Kernel) returns (n: nat)
    requires Good(k) && CanStep(k, Wait) && HasZombie(k)
    ensures Collected(k, Apply(k, Wait), n)
    ensures k.procs[k.cur].kids[n] !in Apply(k, Wait).procs[k.cur].kids
    ensures Apply(k, Wait).procs[k.cur].state.Running?
  {
    var ids := k.procs[k.cur].kids;
    ZombieFound(k);
    n := FirstZombie(k.procs, ids);
    assert KidOk(k.procs, k.cur, ids[n]) && NodeOk(k.procs, k.cur);
    forall m | 0 <= m < n ensures !IsZombie(k, ids[m]) { assert KidOk(k.procs, k.cur, ids[m]); }
  }

  /** A first wait without children returns at once. A wait with none that has exited blocks the
      caller in the loop and delivers nothing. */
  lemma {:induction false} WaitBlocks(k: Kernel)
    requires Good(k) && CanStep(k, Wait) && !HasZombie(k)
    ensures var self, k' := k.procs[k.cur], Apply(k, Wait);
            if self.phase.Body? && self.kids == [] then k' == k
            else
              && HandsOver(Put(k, self.(state := Blocked, phase := Waiting)), k') && k'.cur != k.cur
              && WaitsBlocked(k'.procs[k.cur]) && forall e | e in k'.trace && e.Delivered? :: e in k.trace
  {
    var self := k.procs[k.cur];
    ZombieFound(k);
    Gives(k, self.(state := Blocked, phase := Waiting));
  }

  // ----- create

  predicate Usable(k: Kernel, i: nat) {
    i < |k.procs| && k.procs[i].state.Dead? && k.procs[i].generation != PID_GENERATION_MAX
  }

  /** Slot i holds a new task: Ready, first on the caller's list, on this stack and address space. */
  predicate Given(k: Kernel, k': Kernel, i: nat, stack: nat, space: nat) {
    && k.cur < |k.procs| <= 255 && Usable(k, i) && i != k.cur && SameBut(k, k', k.cur, i) && SameClock(k, k')
    && k'.cur == k.cur && k'.onStack == k.onStack && k'.loaded == k.loaded && k'.pending == k.pending
    && var p, g := k'.procs[i], k.procs[i].generation + 1;
       && p.state.Ready? && p.pid == MakePid(i, g) && p.generation == g && p.parent == k.cur && p.kids == []
       && p.exitCode == 0 && p.stack == stack && p.space == space && p.saved == stack && p.phase.NotStarted?
       && k'.procs[k.cur] == k.procs[k.cur].(kids := [i] + k.procs[k.cur].kids)
       && k'.trace == k.trace + [Spawned(p.pid, stack, space)]
  }

  lemma {:induction false} FreeSlotFirst(ps: seq<Proc>, from: nat)
    requires from <= |ps|
    ensures var i := FreeSlot(ps, from);
            && (i >= 0 ==> ps[i].generation != PID_GENERATION_MAX)
            && forall j | from <= j < (if i >= 0 then i else |ps|) ::
                 !(ps[j].state.Dead? && ps[j].generation != PID_GENERATION_MAX)
    decreases |ps| - from
  {
    if from < |ps| { FreeSlotFirst(ps, from + 1); }
  }

  /** create and create_process: the first usable slot is given to the new task, which then alone
      holds the stack and the address space; without a slot or a stack nothing changes. */
  lemma {:induction false} CreateEffect(k: Kernel, stack: nat, space: nat) returns (i: int)
    requires Good(k) && CanStep(k, Create(stack, space))
    ensures i == if stack == 0 then -1 else FreeSlot(k.procs, 0)
    ensures i >= 0 <==> stack != 0 && exists j: nat :: Usable(k, j)
    ensures i < 0 ==> Apply(k, Create(stack, space)) == k
    ensures i >= 0 ==> Given(k, Apply(k, Create(stack, space)), i, stack, space)
    ensures i >= 0 ==> forall j: nat | j < i :: !Usable(k, j)
    ensures i >= 0 ==> Held(Apply(k, Create(stack, space)), Stack(stack)) == 1
    ensures i >= 0 && space != 0 ==> Held(Apply(k, Create(stack, space)), Space(space)) == 1
  {
    i := FreeSlot(k.procs, 0);
    FreeSlotFirst(k.procs, 0);
    if i >= 0 { assert Usable(k, i); }
    if i >= 0 && stack != 0 {
      NewHolds(k, stack, space, i, Stack(stack));
      NewHolds(k, stack, space, i, Space(space));
    }
    if stack == 0 { i := -1; }
  }

  lemma {:induction false} NewHolds(k: Kernel, stack: nat, space: nat, i: nat, r: Resource)
    requires Good(k) && CanStep(k, Create(stack, space)) && i == FreeSlot(k.procs, 0) && stack != 0
    ensures Held(CreateStep(k, stack, space), r) == Held(k, r) + Count(stack, space, r)
  {
    var child := NewProc(i, k.procs[i].generation + 1, k.cur, stack, space);
    var k' := CreateStep(k, stack, space);
    assert ProcOk(k.procs, k.cur, i);
    HeldByUpdate(k.procs, i, child, r);
    HeldBySame(k.procs[i := child], k'.procs, r);
  }

  // ----- timer

  /** The count went up, and exactly the sleepers whose time had come became Ready. */
  predicate Ticked(k: Kernel, k': Kernel) {
    && |k'.procs| == |k.procs| && k'.now == k.now + 1
    && k' == k.(now := k'.now, procs := k'.procs, tickCounter := if k.tickCounter == 4 then 0 else k.tickCounter + 1)
    && forall i | 0 <= i < |k.procs| ::
         k'.procs[i] == if k.procs[i].state.Sleeping? && k'.now >= k.procs[i].wakeTick
                        then k.procs[i].(state := Ready) else k.procs[i]
  }

  /** tick: the sleepers wake, and at every fifth the processor is handed over. */
  lemma {:induction false} TickEffect(k: Kernel) returns (woken: Kernel)
    requires Good(k) && CanStep(k, Tick)
    ensures Ticked(k, woken)
    ensures if k.tickCounter == 4 then HandsOver(woken, Apply(k, Tick)) else Apply(k, Tick) == woken
  {
    woken := Counted(k);
    WokenSleepers(k);
    TickIs(k);
    if k.tickCounter == 4 { RescheduleHandsOver(woken); }
  }

  lemma {:induction false} TickIs(k: Kernel)
    requires k.cur < |k.procs| && k.tickCounter < 5
    ensures TickStep(k) == if k.tickCounter == 4 then Reschedule(Counted(k)) else Counted(k)
  {
  }

  function Counted(k: Kernel): Kernel {
    k.(now := k.now + 1, procs := WakeSleepers(k.procs, k.now + 1),
       tickCounter := if k.tickCounter == 4 then 0 else k.tickCounter + 1)
  }

  lemma {:induction false} WokenSleepers(k: Kernel)
    requires k.cur < |k.procs|
    ensures Ticked(k, Counted(k)) && (!k.procs[k.cur].state.Sleeping? ==> Counted(k).procs[k.cur] == k.procs[k.cur])
  {
  }

  /** A sleeper whose time has come is Ready after the tick, or Running if that tick handed the
      processor to it; nothing else of it changes. */
  lemma {:induction false} TickWakes(k: Kernel, j: nat, wake: nat)
    requires Good(k) && CanStep(k, Tick) && Asleep(k, j, wake) && k.now + 1 >= wake
    ensures var p, k' := k.procs[j], Apply(k, Tick);
            && |k'.procs| == |k.procs|
            && k'.procs[j].phase == (if p.phase.NotStarted? && k'.cur == j then Entry else p.phase)
            && k'.procs[j] == p.(state := if k'.cur == j then Running else Ready, phase := k'.procs[j].phase)
            && (k'.cur == j ==> k.tickCounter == 4)
  {
    var woken := TickEffect(k);
    assert ProcOk(k.procs, k.cur, j);
    assert woken.procs[j] == k.procs[j].(state := Ready);
  }

  // ----- waking is enough to run

  predicate Runs(k: Kernel, j: nat) {
    j < |k.procs| && k.cur == j && k.procs[j].state.Running?
  }

  lemma {:induction false} ReadyKept(k: Kernel, step: Step, j: nat)
    requires Good(k) && CanStep(k, step) && IsReady(k, j) && !Reschedules(k, step)
    ensures IsReady(Apply(k, step), j)
  {
    assert ProcOk(k.procs, k.cur, j);
    match step
    case Create(stack, space) => FreeSlotFirst(k.procs, 0);
    case Wait => ZombieFound(k);
    case _ =>
  }

  lemma {:induction false} RescheduleReady(k: Kernel, j: nat)
    requires k.cur < |k.procs| && IsReady(k, j) && j != k.cur
    ensures IsReady(Reschedule(k), j) || Runs(Reschedule(k), j)
  {
  }

  /** A Ready task stays Ready until it gets the processor. */
  lemma {:induction false} ReadyStep(k: Kernel, step: Step, j: nat)
    requires Good(k) && CanStep(k, step) && IsReady(k, j)
    ensures IsReady(Apply(k, step), j) || Runs(Apply(k, step), j)
  {
    if Reschedules(k, step) {
      BeforeReady(k, step, j);
      RescheduleReady(Before(k, step), j);
    } else {
      ReadyKept(k, step, j);
    }
  }

  lemma {:induction false} StillReady(ks: seq<Kernel>, steps: seq<Step>, a: nat, b: nat, j: nat)
    requires IsRun(ks, steps) && a <= b < |ks| && IsReady(ks[a], j)
    requires forall m | a < m <= b :: !Runs(ks[m], j)
    ensures forall m | a <= m <= b :: IsReady(ks[m], j)
    decreases b - a
  {
    if a < b {
      StillReady(ks, steps, a, b - 1, j);
      ReachableGood(ks, steps, b - 1);
      assert StepsAt(ks, steps, b - 1) && IsReady(ks[b - 1], j);
      ReadyStep(ks[b - 1], steps[b - 1], j);
    }
  }

  /** A Ready task gets the processor before 5 * (slots - 1) ticks are over, whatever else happens. */
  lemma {:induction false} ReadyRuns(ks: seq<Kernel>, steps: seq<Step>, a: nat, b: nat, j: nat)
    requires IsRun(ks, steps) && a <= b < |ks| && IsReady(ks[a], j)
    requires Ticks(steps[a..b]) >= 5 * (|ks[a].procs| - 1)
    ensures exists m :: a < m <= b && Runs(ks[m], j)
  {
    if forall m | a < m <= b :: !Runs(ks[m], j) {
      StillReady(ks, steps, a, b, j);
      ReadyIsChosen(ks, steps, a, b, j);
    }
  }

  lemma {:induction false} RescheduleClock(k: Kernel)
    requires k.cur < |k.procs|
    ensures Reschedule(k).now == k.now && |Reschedule(k).procs| == |k.procs|
  {
  }

  lemma {:induction false} StepClock(k: Kernel, step: Step)
    requires CanStep(k, step)
    ensures Apply(k, step).now == k.now + (if step.Tick? then 1 else 0) && |Apply(k, step).procs| == |k.procs|
  {
    match step
    case Exit(code) => RescheduleClock(Depart(k, code));
    case Yield => RescheduleClock(k);
    case Create(_, _) | Unblock(_) | Trampoline =>
    case _ => RescheduleClock(Before(k, step));
  }

  /** The clock counts the ticks. */
  lemma {:induction false} ClockTicks(ks: seq<Kernel>, steps: seq<Step>, a: nat, b: nat)
    requires IsRun(ks, steps) && a <= b < |ks|
    ensures ks[b].now == ks[a].now + Ticks(steps[a..b]) && |ks[b].procs| == |ks[a].procs|
    decreases b - a
  {
    if a < b {
      assert StepsAt(ks, steps, a);
      StepClock(ks[a], steps[a]);
      ClockTicks(ks, steps, a + 1, b);
      assert steps[a..b][0] == steps[a] && steps[a..b][1..] == steps[a + 1..b];
    }
  }

  /** The tick that wakes a sleeper: the first after which its time has come. */
  lemma {:induction false} WakeTick(ks: seq<Kernel>, steps: seq<Step>, a: nat, b: nat, j: nat, wake: nat)
    returns (w: nat)
    requires IsRun(ks, steps) && a < b < |ks| && Asleep(ks[a], j, wake) && ks[b].now >= wake && ks[b].now > ks[a].now
    ensures a <= w < b && steps[w].Tick? && Asleep(ks[w], j, wake) && ks[w].now + 1 >= wake
    ensures ks[w + 1].now == ks[w].now + 1 && (ks[w].now + 1 == wake || ks[w].now == ks[a].now)
    decreases b - a
  {
    ReachableGood(ks, steps, a);
    assert StepsAt(ks, steps, a);
    StepAsleep(ks[a], steps[a], j, wake);
    if steps[a].Tick? && ks[a].now + 1 >= wake {
      w := a;
    } else {
      w := WakeTick(ks, steps, a + 1, b, j, wake);
    }
  }

  /** A sleeper gets the processor before 5 * (slots - 1) ticks have gone by after its wake tick, or
      after the next tick if that is later. */
  lemma {:induction false} SleeperRuns(ks: seq<Kernel>, steps: seq<Step>, a: nat, b: nat, j: nat, wake: nat)
    requires IsRun(ks, steps) && a < b < |ks| && Asleep(ks[a], j, wake)
    requires ks[b].now >= wake + 5 * (|ks[a].procs| - 1) && ks[b].now >= ks[a].now + 1 + 5 * (|ks[a].procs| - 1)
    ensures exists m :: a < m <= b && Runs(ks[m], j)
  {
    var w := WakeTick(ks, steps, a, b, j, wake);
    ClockTicks(ks, steps, a, w + 1);
    ClockTicks(ks, steps, w + 1, b);
    WokenRuns(ks, steps, w, b, j, wake);
  }

  lemma {:induction false} WokenRuns(ks: seq<Kernel>, steps: seq<Step>, w: nat, b: nat, j: nat, wake: nat)
    requires IsRun(ks, steps) && w < b < |ks| && steps[w].Tick? && Asleep(ks[w], j, wake) && ks[w].now + 1 >= wake
    requires Ticks(steps[w + 1..b]) >= 5 * (|ks[w + 1].procs| - 1)
    ensures exists m :: w < m <= b && Runs(ks[m], j)
  {
    WokenReady(ks, steps, w, j, wake);
    if IsReady(ks[w + 1], j) {
      ReadyRuns(ks, steps, w + 1, b, j);
      var m :| w + 1 < m <= b && Runs(ks[m], j);
    }
  }

  lemma {:induction false} WokenReady(ks: seq<Kernel>, steps: seq<Step>, w: nat, j: nat, wake: nat)
    requires IsRun(ks, steps) && w < |steps| && steps[w].Tick? && Asleep(ks[w], j, wake) && ks[w].now + 1 >= wake
    ensures IsReady(ks[w + 1], j) || Runs(ks[w + 1], j)
  {
    ReachableGood(ks, steps, w);
    assert StepsAt(ks, steps, w);
    TickWakes(ks[w], j, wake);
  }

  // ----- exit_current

  function Backwards(s: seq<nat>): (r: seq<nat>) {
    seq(|s|, i requires 0 <= i < |s| => s[|s| - 1 - i])
  }

  lemma {:induction false} ReversedBackwards(s: seq<nat>)
    ensures Reversed(s) == Backwards(s)
  {
    if s != [] { ReversedBackwards(s[1..]); }
  }

  /** What an exit does to another task: an orphan gets init as parent, init the orphans, last
      first; the parent wakes if it is blocked, and so does init if it got any. */
  function Bereft(k: Kernel, i: nat): Proc
    requires k.cur < |k.procs| && i < |k.procs|
  {
    var p, self := k.procs[i], k.procs[k.cur];
    var woken := p.state.Blocked? && (i == self.parent || (i == k.init && self.kids != []));
    p.(parent := if i in self.kids then k.init else p.parent,
       kids := if i == k.init then Backwards(self.kids) + p.kids else p.kids,
       state := if woken then Ready else p.state)
  }

  /** The caller is a Zombie if it has a parent, otherwise Dead; its stack and address space wait to
      be released. */
  predicate Departed(k: Kernel, d: Kernel, code: int) {
    && k.cur < |k.procs| == |d.procs| && d.cur == k.cur && d.onStack == k.onStack && d.loaded == k.loaded
    && SameClock(k, d)
    && var self := k.procs[k.cur];
       && d.pending == Pending(self.stack, self.space, self.stack != 0 || self.space != 0)
       && d.trace == k.trace + [Exited(self.pid, code)]
       && d.procs[k.cur] == self.(state := if self.parent == -1 then Dead else Zombie, exitCode := code, kids := [],
                                  stack := 0, space := 0)
       && forall i | 0 <= i < |k.procs| && i != k.cur :: d.procs[i] == Bereft(k, i)
  }

  /** exit_current. */
  lemma {:induction false} ExitEffect(k: Kernel, code: int) returns (d: Kernel)
    requires Good(k) && CanStep(k, Exit(code))
    ensures Departed(k, d, code) && HandsOver(d, Apply(k, Exit(code))) && Apply(k, Exit(code)).cur != k.cur
  {
    d := Depart(k, code);
    DepartedState(k, code);
    RescheduleHandsOver(d);
    assert ProcOk(k.procs, k.cur, k.idle) && IsReady(d, k.idle);
  }

  /** Adoption, seen from another task. */
  lemma {:induction false} AdoptSlot(ps: seq<Proc>, self: nat, init: nat, i: nat)
    requires self < |ps| && init < |ps| && self != init && i < |ps| && i != self
    ensures var kids := ps[self].kids;
            Adopt(ps, self, init)[i]
              == ps[i].(parent := if i in kids then init else ps[i].parent,
                        kids := if i == init then Backwards(kids) + ps[i].kids else ps[i].kids,
                        state := if i == init && kids != [] && ps[i].state.Blocked? then Ready else ps[i].state)
  {
    ReversedBackwards(ps[self].kids);
    if ps[self].kids != [] {
      AdoptShape(ps, self, init);
      assert AdoptedAt(ps, Adopt(ps, self, init), self, init, i);
    } else {
      assert Backwards([]) + ps[i].kids == ps[i].kids;
    }
  }

  lemma {:induction false} AdoptSelf(ps: seq<Proc>, self: nat, init: nat)
    requires self < |ps| && init < |ps| && self != init && self !in ps[self].kids
    ensures Adopt(ps, self, init)[self] == ps[self].(kids := [])
  {
    if ps[self].kids != [] {
      AdoptShape(ps, self, init);
      assert AdoptedAt(ps, Adopt(ps, self, init), self, init, self);
    }
  }

  /** The parent of the caller is live if there is one, and none of its own children. */
  lemma {:induction false} ParentLives(k: Kernel)
    requires Good(k)
    ensures var self := k.procs[k.cur];
            && k.cur !in self.kids && self.parent != k.cur && (self.parent == -1 || Live(k.procs, self.parent))
  {
    assert ParentOk(k.procs, k.cur) && KidOk(k.procs, k.cur, k.cur);
    assert KidOk(k.procs, k.procs[k.cur].parent, k.cur);
  }

  lemma {:induction false} AdoptLive(ps: seq<Proc>, self: nat, init: nat, i: nat)
    requires self < |ps| && init < |ps| && self != init && i < |ps| && i != self
    ensures Live(Adopt(ps, self, init), i) <==> Live(ps, i)
  {
    AdoptSlot(ps, self, init, i);
  }

  lemma {:induction false} BurySlot(ps: seq<Proc>, self: nat, i: nat)
    requires self < |ps| && i < |ps| && ps[self].parent != self
    requires ps[self].parent == -1 || Live(ps, ps[self].parent)
    ensures var p := ps[i];
            Bury(ps, self)[i] == if i == self then p.(state := if p.parent == -1 then Dead else Zombie)
                                 else if i == ps[self].parent && p.state.Blocked? then p.(state := Ready) else p
  {
  }

  lemma {:induction false} DepartedState(k: Kernel, code: int)
    requires Good(k) && CanStep(k, Exit(code))
    ensures Departed(k, Depart(k, code), code)
  {
    var self := k.procs[k.cur];
    var ps := k.procs[k.cur := self.(stack := 0, space := 0, exitCode := code)];
    var q := Adopt(ps, k.cur, k.init);
    ParentLives(k);
    AdoptSelf(ps, k.cur, k.init);
    if self.parent != -1 { AdoptLive(ps, k.cur, k.init, self.parent); }
    BurySlot(q, k.cur, k.cur);
    forall i: nat | i < |k.procs| && i != k.cur ensures Depart(k, code).procs[i] == Bereft(k, i) {
      AdoptSlot(ps, k.cur, k.init, i);
      BurySlot(q, k.cur, i);
    }
  }

  // ----- an exit reaches the parent that waits for it

  /** Task p is inside the loop of wait_for_child, with child c left to collect. */
  predicate Expects(k: Kernel, p: nat, c: nat) {
    p < |k.procs| && k.procs[p].phase.Waiting? && c in k.procs[p].kids && IsZombie(k, c)
  }

  lemma {:induction false} RescheduleExpects(k: Kernel, p: nat, c: nat)
    requires k.cur < |k.procs| && Expects(k, p, c)
    ensures Expects(Reschedule(k), p, c)
  {
  }

  lemma {:induction false} DepartExpects(k: Kernel, code: int, p: nat, c: nat)
    requires Good(k) && CanStep(k, Exit(code)) && Expects(k, p, c) && p != k.cur
    ensures Expects(Depart(k, code), p, c)
  {
    DepartedState(k, code);
    assert Depart(k, code).procs[p] == Bereft(k, p) && Depart(k, code).procs[c] == Bereft(k, c);
  }

  lemma {:induction false} WaitExpects(k: Kernel, p: nat, c: nat)
    requires Good(k) && CanStep(k, Wait) && Expects(k, p, c) && p != k.cur
    ensures Expects(WaitStep(k), p, c)
  {
    assert KidOk(k.procs, p, c);
    if HasZombie(k) {
      var n := WaitCollects(k);
      assert KidOk(k.procs, k.cur, k.procs[k.cur].kids[n]);
    } else {
      ZombieFound(k);
      RescheduleExpects(Put(k, k.procs[k.cur].(state := Blocked, phase := Waiting)), p, c);
    }
  }

  /** Nobody but the parent takes the child away. */
  lemma {:induction false} ExpectsKept(k: Kernel, step: Step, p: nat, c: nat)
    requires Good(k) && CanStep(k, step) && Expects(k, p, c) && p != k.cur
    ensures Expects(Apply(k, step), p, c)
  {
    assert KidOk(k.procs, p, c) && NodeOk(k.procs, p);
    match step
    case Exit(code) =>
      DepartExpects(k, code, p, c);
      RescheduleExpects(Depart(k, code), p, c);
    case Wait => WaitExpects(k, p, c);
    case Yield => RescheduleExpects(k, p, c);
    case Block | Sleep(_) | Tick => RescheduleExpects(Before(k, step), p, c);
    case Create(_, _) | Unblock(_) | Trampoline =>
  }

  /** Up to where p first gets the processor. */
  lemma {:induction false} ExpectsUntil(ks: seq<Kernel>, steps: seq<Step>, a: nat, b: nat, p: nat, c: nat)
    returns (m: nat)
    requires IsRun(ks, steps) && a <= b < |ks| && Expects(ks[a], p, c) && Runs(ks[b], p)
    ensures a <= m <= b && Runs(ks[m], p) && Expects(ks[m], p, c)
    decreases b - a
  {
    ReachableGood(ks, steps, a);
    if ks[a].cur == p {
      m := a;
    } else {
      assert StepsAt(ks, steps, a);
      ExpectsKept(ks[a], steps[a], p, c);
      m := ExpectsUntil(ks, steps, a + 1, b, p, c);
    }
  }

  /** An exit makes its parent, if that is blocked in wait_for_child, Ready with a child to collect. */
  lemma {:induction false} ExitWakesParent(k: Kernel, code: int, p: nat)
    requires Good(k) && CanStep(k, Exit(code)) && p == k.procs[k.cur].parent && p < |k.procs|
             && WaitsBlocked(k.procs[p])
    ensures Expects(Apply(k, Exit(code)), p, k.cur)
    ensures IsReady(Apply(k, Exit(code)), p) || Runs(Apply(k, Exit(code)), p)
  {
    ParentLives(k);
    assert ParentOk(k.procs, k.cur);
    DepartedState(k, code);
    var d := Depart(k, code);
    assert d.procs[p] == Bereft(k, p);
    RescheduleExpects(d, p, k.cur);
    RescheduleReady(d, p);
  }

  /** A task blocked in wait_for_child whose child exits gets the processor, within the bound of the
      scheduler, with that child still to collect: its next pass collects one (WaitCollects). */
  lemma {:induction false} ExitReachesParent(ks: seq<Kernel>, steps: seq<Step>, a: nat, b: nat, p: nat)
    returns (m: nat)
    requires IsRun(ks, steps) && a < b < |ks| && steps[a].Exit? && ks[a].cur < |ks[a].procs|
    requires p < |ks[a].procs| && ks[a].procs[ks[a].cur].parent == p && WaitsBlocked(ks[a].procs[p])
    requires Ticks(steps[a + 1..b]) >= 5 * (|ks[a].procs| - 1)
    ensures a < m <= b && Runs(ks[m], p) && Expects(ks[m], p, ks[a].cur) && HasZombie(ks[m])
  {
    ReachableGood(ks, steps, a);
    assert StepsAt(ks, steps, a);
    ExitWakesParent(ks[a], steps[a].code, p);
    var e := a + 1;
    if !Runs(ks[e], p) {
      ClockTicks(ks, steps, a, e);
      ReadyRuns(ks, steps, e, b, p);
      e :| a + 1 < e <= b && Runs(ks[e], p);
    }
    m := ExpectsUntil(ks, steps, a + 1, e, p, ks[a].cur);
    assert ks[a].cur in ks[m].procs[p].kids;
  }

  // ----- task_trampoline

  /** A new task that nothing interrupts goes to its entry function: at once if nothing waits to be
      released, otherwise after releasing exactly that, the stack first. */
  lemma {:induction false} TrampolineEffect(k: Kernel)
    requires Good(k) && k.procs[k.cur].phase.Entry?
    ensures var first := Apply(k, Trampoline);
            if !k.pending.active then first == Put(k, k.procs[k.cur].(phase := Body))
            else
              && CanStep(first, Trampoline) && CanStep(Apply(first, Trampoline), Trampoline)
              && CanStep(Apply(Apply(first, Trampoline), Trampoline), Trampoline)
              && var k' := Apply(Apply(Apply(first, Trampoline), Trampoline), Trampoline);
                 && SameBut(k, k', k.cur, k.cur) && SameClock(k, k') && k'.cur == k.cur
                 && k'.onStack == k.onStack && k'.loaded == k.loaded && Cleaned(k, k', false)
                 && k'.procs[k.cur] == k.procs[k.cur].(phase := Body)
  {
    var t, p := k.trace, k.pending;
    if p.active {
      assert t + ReleaseEvents(p.stack, 0, k.onStack, k.loaded) + ReleaseEvents(0, p.space, k.onStack, k.loaded)
          == t + (if p.stack != 0 then [FreeStack(p.stack, k.onStack)] else [])
               + if p.space != 0 then [FreeSpace(p.space, k.loaded)] else [];
    }
  }
}

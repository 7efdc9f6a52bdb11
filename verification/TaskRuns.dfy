/** Whole runs of the task machine: PIDs, exit codes, and the theorems about every
    reachable state. */
module TaskRuns {
  import opened Pids
  import opened TaskModel
  import opened TaskInvariants
  import opened TaskResources

  // ----- PIDs

  /** A slot that was ever used carries the PID of its latest generation. */
  predicate NumberedAt(ps: seq<Proc>, i: int) {
    0 <= i < |ps| <= 255 ==>
      && (ps[i].generation == 0 ==> ps[i].state.Dead? && ps[i].pid == NO_PID)
      && (ps[i].generation > 0 ==> ps[i].pid == MakePid(i, ps[i].generation))
  }

  ghost predicate Numbered(ps: seq<Proc>) {
    |ps| <= 255 && forall i {:trigger NumberedAt(ps, i)} :: NumberedAt(ps, i)
  }

  /** No slot has been used 2^56 times, so that no PID has been handed out twice. */
  predicate Young(ps: seq<Proc>) {
    forall i | 0 <= i < |ps| :: ps[i].generation < TWO_56
  }

  /** No slot forgets how often it was used. */
  predicate Older(ps: seq<Proc>, qs: seq<Proc>) {
    |qs| == |ps| && forall i | 0 <= i < |ps| :: ps[i].generation <= qs[i].generation
  }

  /** How one slot may change in a step that creates nothing in it: a Dead task stays
      Dead, a Zombie keeps its exit code until it is Dead. */
  predicate AgesTo(p: Proc, q: Proc) {
    && q.generation == p.generation && q.pid == p.pid
    && (p.state.Dead? ==> q.state.Dead?)
    && (p.state.Zombie? ==> q.state.Dead? || (q.state.Zombie? && q.exitCode == p.exitCode))
  }

  predicate Born(p: Proc, q: Proc) {
    p.state.Dead? && q.state.Ready? && q.generation == p.generation + 1
  }

  ghost predicate Later(ps: seq<Proc>, qs: seq<Proc>) {
    |qs| == |ps| && forall i | 0 <= i < |ps| :: AgesTo(ps[i], qs[i]) || Born(ps[i], qs[i])
  }

  /** The task once known as `pid` has exited: its slot has moved on, or holds its remains. */
  predicate Spent(ps: seq<Proc>, pid: Pid) {
    var i, g := SlotOf(pid), GenerationOf(pid);
    0 <= i < |ps| && 1 <= g <= ps[i].generation && (g == ps[i].generation ==> Gone(ps[i]))
  }

  /** ... and its exit code has been collected. */
  predicate Settled(ps: seq<Proc>, pid: Pid) {
    var i, g := SlotOf(pid), GenerationOf(pid);
    Spent(ps, pid) && (g == ps[i].generation ==> ps[i].state.Dead?)
  }

  lemma {:induction false} LaterKeeps(ps: seq<Proc>, qs: seq<Proc>, pid: Pid)
    requires Later(ps, qs)
    ensures Spent(ps, pid) ==> Spent(qs, pid)
    ensures Settled(ps, pid) ==> Settled(qs, pid)
  {
  }

  // ----- exit codes

  predicate EventOk(ps: seq<Proc>, t: seq<Event>, n: int) {
    0 <= n < |t| ==>
      match t[n]
      case Exited(pid, _) => Spent(ps, pid)
      case Delivered(pid, code, _) => Settled(ps, pid) && Exited(pid, code) in t[..n]
      case _ => true
  }

  /** Two different exits, and two different deliveries, are of different tasks. */
  predicate PairOk(t: seq<Event>, m: int, n: int) {
    0 <= m < n < |t| ==>
      && (t[m].Exited? && t[n].Exited? ==> t[m].pid != t[n].pid)
      && (t[m].Delivered? && t[n].Delivered? ==> t[m].pid != t[n].pid)
  }

  predicate ZombieOk(ps: seq<Proc>, t: seq<Event>, i: int) {
    0 <= i < |ps| && ps[i].state.Zombie? ==> Exited(ps[i].pid, ps[i].exitCode) in t
  }

  ghost predicate History(k: Kernel) {
    && (forall n {:trigger EventOk(k.procs, k.trace, n)} :: EventOk(k.procs, k.trace, n))
    && (forall m, n {:trigger PairOk(k.trace, m, n)} :: PairOk(k.trace, m, n))
    && (forall i {:trigger ZombieOk(k.procs, k.trace, i)} :: ZombieOk(k.procs, k.trace, i))
  }

  predicate Silent(t: seq<Event>) {
    forall n | 0 <= n < |t| :: !t[n].Exited? && !t[n].Delivered?
  }

  /** Steps in which nobody exits and nothing is delivered. */
  lemma {:induction false} QuietHistory(k: Kernel, k': Kernel, more: seq<Event>)
    requires History(k) && Later(k.procs, k'.procs) && k'.trace == k.trace + more && Silent(more)
    requires forall i | 0 <= i < |k.procs| && k'.procs[i].state.Zombie? :: k.procs[i].state.Zombie?
    ensures History(k')
  {
    forall n ensures EventOk(k'.procs, k'.trace, n) {
      assert EventOk(k.procs, k.trace, n);
      if 0 <= n < |k.trace| && (k.trace[n].Exited? || k.trace[n].Delivered?) {
        LaterKeeps(k.procs, k'.procs, k.trace[n].pid);
        assert k'.trace[..n] == k.trace[..n];
      } else if |k.trace| <= n < |k'.trace| {
        assert k'.trace[n] == more[n - |k.trace|];
      }
    }
    forall m, n ensures PairOk(k'.trace, m, n) { assert PairOk(k.trace, m, n); }
    forall i ensures ZombieOk(k'.procs, k'.trace, i) { assert ZombieOk(k.procs, k.trace, i); }
  }

  lemma {:induction false} RescheduleHistory(k: Kernel)
    requires History(k) && k.cur < |k.procs|
    ensures History(Reschedule(k))
  {
    var k' := Reschedule(k);
    var more := k'.trace[|k.trace|..];
    assert k'.trace == k.trace + more;
    QuietHistory(k, k', more);
  }

  lemma {:induction false} AdoptIds(ps: seq<Proc>, self: nat, init: nat)
    requires self < |ps| && init < |ps|
    ensures forall i | 0 <= i < |ps| :: SameId(ps[i], Adopt(ps, self, init)[i])
  {
    if self != init && ps[self].kids != [] {
      AdoptShape(ps, self, init);
      forall i: nat | i < |ps| ensures SameId(ps[i], Adopt(ps, self, init)[i]) {
        assert AdoptedAt(ps, Adopt(ps, self, init), self, init, i);
      }
    }
  }

  lemma {:induction false} BuryIds(ps: seq<Proc>, self: nat)
    requires self < |ps|
    ensures forall i | 0 <= i < |ps| :: SameId(ps[i], Bury(ps, self)[i])
  {
  }

  lemma {:induction false} DepartIds(k: Kernel, code: int)
    requires k.cur < |k.procs| && k.init < |k.procs|
    ensures var q := Depart(k, code).procs;
            && |q| == |k.procs|
            && (forall i | 0 <= i < |q| && i != k.cur :: SameId(k.procs[i], q[i]))
            && SameId(k.procs[k.cur].(exitCode := code), q[k.cur])
  {
    var ps := k.procs[k.cur := k.procs[k.cur].(stack := 0, space := 0, exitCode := code)];
    AdoptIds(ps, k.cur, k.init);
    BuryIds(Adopt(ps, k.cur, k.init), k.cur);
  }

  lemma {:induction false} DepartHistory(k: Kernel, code: int)
    requires History(k) && Placed(k) && Family(k.procs) && Numbered(k.procs) && Young(k.procs) && k.cur != k.init
    ensures History(Depart(k, code))
  {
    DepartOthers(k, code);
    DepartIds(k, code);
    DepartLater(k, Depart(k, code).procs, code);
    ExitHistory(k, Depart(k, code), code);
  }

  lemma {:induction false} DepartLater(k: Kernel, q: seq<Proc>, code: int)
    requires k.cur < |k.procs| == |q| && !Gone(k.procs[k.cur])
    requires forall i | 0 <= i < |q| && i != k.cur :: SameId(k.procs[i], q[i]) && SameMachine(k.procs[i], q[i])
    requires SameId(k.procs[k.cur].(exitCode := code), q[k.cur])
    ensures Later(k.procs, q)
    ensures forall i | 0 <= i < |q| && i != k.cur && q[i].state.Zombie? :: k.procs[i].state.Zombie?
  {
  }

  lemma {:induction false} ExitHistory(k: Kernel, k': Kernel, code: int)
    requires History(k) && Numbered(k.procs) && Young(k.procs) && k.cur < |k.procs| && !Gone(k.procs[k.cur])
    requires Later(k.procs, k'.procs) && k'.trace == k.trace + [Exited(k.procs[k.cur].pid, code)]
    requires Gone(k'.procs[k.cur]) && k'.procs[k.cur].exitCode == code && k'.procs[k.cur].pid == k.procs[k.cur].pid
    requires k'.procs[k.cur].generation == k.procs[k.cur].generation
    requires forall i | 0 <= i < |k.procs| && i != k.cur && k'.procs[i].state.Zombie? :: k.procs[i].state.Zombie?
    ensures History(k')
  {
    var pid := k.procs[k.cur].pid;
    assert NumberedAt(k.procs, k.cur);
    UnpackPid(k.cur, k.procs[k.cur].generation);
    assert !Spent(k.procs, pid);
    forall n ensures EventOk(k'.procs, k'.trace, n) {
      assert EventOk(k.procs, k.trace, n);
      if 0 <= n < |k.trace| && (k.trace[n].Exited? || k.trace[n].Delivered?) {
        LaterKeeps(k.procs, k'.procs, k.trace[n].pid);
        assert k'.trace[..n] == k.trace[..n];
      }
    }
    forall m, n ensures PairOk(k'.trace, m, n) {
      assert PairOk(k.trace, m, n) && EventOk(k.procs, k.trace, m);
    }
    forall i ensures ZombieOk(k'.procs, k'.trace, i) {
      assert ZombieOk(k.procs, k.trace, i);
      assert k'.trace[|k.trace|] == Exited(pid, code);
    }
  }

  lemma {:induction false} DeliverHistory(k: Kernel, n: nat)
    requires History(k) && Family(k.procs) && Numbered(k.procs) && Young(k.procs) && k.cur < |k.procs|
    requires n < |k.procs[k.cur].kids| && k.procs[k.cur].kids[n] < |k.procs|
    requires k.procs[k.procs[k.cur].kids[n]].state.Zombie? && !Gone(k.procs[k.cur])
    ensures History(ReapChild(k, n))
  {
    var k' := ReapChild(k, n);
    var c := k.procs[k.cur].kids[n];
    var child := k.procs[c];
    assert NumberedAt(k.procs, c) && ZombieOk(k.procs, k.trace, c);
    UnpackPid(c, child.generation);
    assert !Settled(k.procs, child.pid) && Settled(k'.procs, child.pid);
    assert Later(k.procs, k'.procs);
    forall m ensures EventOk(k'.procs, k'.trace, m) {
      assert EventOk(k.procs, k.trace, m);
      if 0 <= m < |k.trace| && (k.trace[m].Exited? || k.trace[m].Delivered?) {
        LaterKeeps(k.procs, k'.procs, k.trace[m].pid);
        assert k'.trace[..m] == k.trace[..m];
      } else if m == |k.trace| {
        assert k'.trace[..m] == k.trace;
      }
    }
    forall a, b ensures PairOk(k'.trace, a, b) {
      assert PairOk(k.trace, a, b) && EventOk(k.procs, k.trace, a);
    }
    forall i ensures ZombieOk(k'.procs, k'.trace, i) { assert ZombieOk(k.procs, k.trace, i); }
  }

  // ----- one step

  lemma {:induction false} SameIdsNumbered(ps: seq<Proc>, qs: seq<Proc>)
    requires Numbered(ps) && |qs| == |ps|
    requires forall i | 0 <= i < |ps| :: qs[i].pid == ps[i].pid && qs[i].generation == ps[i].generation
                                         && (ps[i].state.Dead? ==> qs[i].state.Dead?)
    ensures Numbered(qs) && Older(ps, qs)
  {
    forall i ensures NumberedAt(qs, i) { assert NumberedAt(ps, i); }
  }

  lemma {:induction false} CreateNumbers(k: Kernel, stack: nat, space: nat)
    requires Numbered(k.procs) && Placed(k) && Enabled(k, Create(stack, space))
    ensures Numbered(CreateStep(k, stack, space).procs) && Older(k.procs, CreateStep(k, stack, space).procs)
  {
    var q := CreateStep(k, stack, space).procs;
    forall i ensures NumberedAt(q, i) { assert NumberedAt(k.procs, i); }
  }

  lemma {:induction false} RescheduleNumbers(k: Kernel)
    requires Numbered(k.procs) && k.cur < |k.procs|
    ensures Numbered(Reschedule(k).procs) && Older(k.procs, Reschedule(k).procs)
  {
    SameIdsNumbered(k.procs, Reschedule(k).procs);
  }

  lemma {:induction false} DepartKeepsIds(k: Kernel, code: int)
    requires Placed(k) && Family(k.procs) && k.cur != k.init
    ensures var ps, qs := k.procs, Depart(k, code).procs;
            && |qs| == |ps|
            && forall i | 0 <= i < |ps| :: qs[i].pid == ps[i].pid && qs[i].generation == ps[i].generation
                                           && (ps[i].state.Dead? ==> qs[i].state.Dead?)
  {
    DepartIds(k, code);
    DepartOthers(k, code);
  }

  lemma {:induction false} DepartNumbers(k: Kernel, code: int)
    requires Numbered(k.procs) && Placed(k) && Family(k.procs) && k.cur != k.init
    ensures Numbered(Depart(k, code).procs) && Older(k.procs, Depart(k, code).procs)
  {
    DepartKeepsIds(k, code);
    SameIdsNumbered(k.procs, Depart(k, code).procs);
  }

  lemma {:induction false} ExitNumbers(k: Kernel, code: int)
    requires Numbered(k.procs) && Placed(k) && Family(k.procs) && k.cur != k.init
    ensures Numbered(Reschedule(Depart(k, code)).procs) && Older(k.procs, Reschedule(Depart(k, code)).procs)
  {
    DepartNumbers(k, code);
    RescheduleNumbers(Depart(k, code));
  }

  lemma {:induction false} ParkNumbers(k: Kernel, p: Proc)
    requires Numbered(k.procs) && k.cur < |k.procs| && k.procs[k.cur].state.Running? && !p.state.Dead?
    requires SameId(k.procs[k.cur], p)
    ensures Numbered(Reschedule(k.(procs := k.procs[k.cur := p])).procs)
            && Older(k.procs, Reschedule(k.(procs := k.procs[k.cur := p])).procs)
  {
    SameIdsNumbered(k.procs, k.procs[k.cur := p]);
    RescheduleNumbers(k.(procs := k.procs[k.cur := p]));
  }

  lemma {:induction false} WaitNumbers(k: Kernel)
    requires Numbered(k.procs) && k.cur < |k.procs| && k.procs[k.cur].state.Running?
    ensures Numbered(WaitStep(k).procs) && Older(k.procs, WaitStep(k).procs)
  {
    var self := k.procs[k.cur];
    var n := FirstZombie(k.procs, self.kids);
    if n < |self.kids| {
      SameIdsNumbered(k.procs, ReapChild(k, n).procs);
    } else {
      ParkNumbers(k, self.(state := Blocked, phase := Waiting));
    }
  }

  lemma {:induction false} TickNumbers(k: Kernel)
    requires Numbered(k.procs) && k.cur < |k.procs|
    ensures Numbered(TickStep(k).procs) && Older(k.procs, TickStep(k).procs)
  {
    var k1 := k.(now := k.now + 1, procs := WakeSleepers(k.procs, k.now + 1), tickCounter := 0);
    SameIdsNumbered(k.procs, k1.procs);
    RescheduleNumbers(k1);
  }

  lemma {:induction false} StepNumbers(k: Kernel, step: Step)
    requires Numbered(k.procs) && Placed(k) && Family(k.procs) && Enabled(k, step)
    ensures Numbered(Apply(k, step).procs) && Older(k.procs, Apply(k, step).procs)
  {
    match step {
      case Create(stack, space) => CreateNumbers(k, stack, space);
      case Exit(code) => ExitNumbers(k, code);
      case Wait => WaitNumbers(k);
      case Block => ParkNumbers(k, k.procs[k.cur].(state := Blocked));
      case Unblock(slot) => SameIdsNumbered(k.procs, WakeSlot(k.procs, slot));
      case Sleep(ticks) => ParkNumbers(k, k.procs[k.cur].(state := Sleeping, wakeTick := WakeAt(k.now, ticks)));
      case Yield => RescheduleNumbers(k);
      case Tick => TickNumbers(k);
      case Trampoline => SameIdsNumbered(k.procs, TrampolineStep(k).procs);
    }
  }

  lemma {:induction false} WaitHistory(k: Kernel)
    requires History(k) && Placed(k) && Family(k.procs) && Numbered(k.procs) && Young(k.procs)
    ensures History(WaitStep(k))
  {
    var self := k.procs[k.cur];
    var n := FirstZombie(k.procs, self.kids);
    if n < |self.kids| {
      DeliverHistory(k, n);
    } else {
      var k1 := k.(procs := k.procs[k.cur := self.(state := Blocked, phase := Waiting)]);
      QuietHistory(k, k1, []);
      RescheduleHistory(k1);
    }
  }

  lemma {:induction false} ParkHistory(k: Kernel, state: RunState, wakeTick: nat)
    requires History(k) && Placed(k) && (state.Blocked? || state.Sleeping?)
    ensures History(Park(k, state, wakeTick))
  {
    var k1 := k.(procs := k.procs[k.cur := k.procs[k.cur].(state := state, wakeTick := wakeTick)]);
    QuietHistory(k, k1, []);
    RescheduleHistory(k1);
  }

  lemma {:induction false} TickHistory(k: Kernel)
    requires History(k) && Placed(k)
    ensures History(TickStep(k))
  {
    var k1 := k.(now := k.now + 1, procs := WakeSleepers(k.procs, k.now + 1), tickCounter := 0);
    QuietHistory(k, k1, []);
    RescheduleHistory(k1);
    QuietHistory(k, k1.(tickCounter := k.tickCounter + 1), []);
  }

  lemma {:induction false} CreateHistory(k: Kernel, stack: nat, space: nat)
    requires History(k) && Placed(k) && Family(k.procs)
    ensures History(CreateStep(k, stack, space))
  {
    var i := FreeSlot(k.procs, 0);
    if i >= 0 && stack != 0 {
      var k' := CreateStep(k, stack, space);
      QuietHistory(k, k', [Spawned(k'.procs[i].pid, stack, space)]);
    }
  }

  lemma {:induction false} TrampolineHistory(k: Kernel)
    requires History(k) && Placed(k)
    ensures History(TrampolineStep(k))
  {
    var k' := TrampolineStep(k);
    QuietHistory(k, k', k'.trace[|k.trace|..]);
  }

  lemma {:induction false} StepHistory(k: Kernel, step: Step)
    requires History(k) && Placed(k) && Family(k.procs) && Numbered(k.procs) && Young(k.procs) && Enabled(k, step)
    ensures History(Apply(k, step))
  {
    match step {
      case Create(stack, space) => CreateHistory(k, stack, space);
      case Exit(code) =>
        DepartHistory(k, code);
        RescheduleHistory(Depart(k, code));
      case Wait => WaitHistory(k);
      case Block => ParkHistory(k, Blocked, k.procs[k.cur].wakeTick);
      case Unblock(slot) => QuietHistory(k, Apply(k, step), []);
      case Sleep(ticks) => ParkHistory(k, Sleeping, WakeAt(k.now, ticks));
      case Yield => RescheduleHistory(k);
      case Tick => TickHistory(k);
      case Trampoline => TrampolineHistory(k);
    }
  }

  // ----- runs

  ghost predicate Good(k: Kernel) {
    Placed(k) && Family(k.procs) && Accounted(k) && Numbered(k.procs) && (Young(k.procs) ==> History(k))
  }

  predicate CanStep(k: Kernel, step: Step) {
    k.cur < |k.procs| <= 255 && k.init < |k.procs| && Enabled(k, step)
  }

  predicate IsBoot(k: Kernel) {
    && 3 <= |k.procs| <= 255
    && k.procs[1].stack != 0 && k.procs[2].stack != 0 && k.procs[1].stack != k.procs[2].stack
    && k.kernelSpace != 0
    && k == Boot(|k.procs|, k.procs[1].stack, k.procs[2].stack, k.kernelSpace)
  }

  predicate StepsAt(ks: seq<Kernel>, steps: seq<Step>, n: int) {
    0 <= n < |steps| && n + 1 < |ks| ==> CanStep(ks[n], steps[n]) && ks[n + 1] == Apply(ks[n], steps[n])
  }

  /** ks[0] takes steps[0] to ks[1] and so on. */
  ghost predicate IsPath(ks: seq<Kernel>, steps: seq<Step>) {
    |ks| == |steps| + 1 && forall n {:trigger StepsAt(ks, steps, n)} :: StepsAt(ks, steps, n)
  }

  ghost predicate IsRun(ks: seq<Kernel>, steps: seq<Step>) {
    IsPath(ks, steps) && IsBoot(ks[0])
  }

  lemma {:induction false} StepKeepsGood(k: Kernel, step: Step)
    requires Good(k) && CanStep(k, step)
    ensures Good(Apply(k, step))
  {
    StepPlaces(k, step);
    StepKeepsFamily(k, step);
    StepAccounts(k, step);
    StepNumbers(k, step);
    if Young(Apply(k, step).procs) { StepHistory(k, step); }
  }

  lemma {:induction false} DeadHoldNothing(ps: seq<Proc>, n: nat, r: Resource)
    requires n <= |ps| && forall i | n <= i < |ps| :: EmptyHanded(ps[i])
    ensures HeldBy(ps, r) == HeldBy(ps[..n], r)
    decreases |ps| - n
  {
    if n < |ps| {
      DeadHoldNothing(ps[..|ps| - 1], n, r);
      assert ps[..|ps| - 1][..n] == ps[..n];
    } else {
      assert ps[..n] == ps;
    }
  }

  lemma {:induction false} ThreeHold(a: Proc, b: Proc, c: Proc, r: Resource)
    ensures HeldBy([a, b, c], r) == Holds(a, r) + Holds(b, r) + Holds(c, r)
  {
    assert [a, b, c][..2] == [a, b] && [a, b][..1] == [a] && [a][..0] == [];
    assert HeldBy([a], r) == Holds(a, r);
    assert HeldBy([a, b], r) == Holds(a, r) + Holds(b, r);
  }

  /** Two stacks given to two tasks. */
  lemma {:induction false} TwoGiven(t: seq<Event>, a: nat, b: nat, r: Resource)
    requires |t| == 2 && t[0].Spawned? && t[0].stack == a && t[0].space == 0
    requires t[1].Spawned? && t[1].stack == b && t[1].space == 0
    ensures Acquired(t, r) == Count(a, 0, r) + Count(b, 0, r) && Released(t, r) == 0
  {
    TraceAppend([], t[0], r);
    TraceAppend([t[0]], t[1], r);
    assert [] + [t[0]] == [t[0]] && [t[0]] + [t[1]] == t;
  }

  /** Two tasks hold a stack each, the others nothing. */
  lemma {:induction false} TwoHold(ps: seq<Proc>, r: Resource)
    requires |ps| >= 3 && EmptyHanded(ps[0]) && forall i | 3 <= i < |ps| :: EmptyHanded(ps[i])
    requires ps[1].phase.NotStarted? && ps[2].phase.NotStarted? && ps[1].space == 0 && ps[2].space == 0
    ensures HeldBy(ps, r) == Count(ps[1].stack, 0, r) + Count(ps[2].stack, 0, r)
  {
    DeadHoldNothing(ps, 3, r);
    ThreeHold(ps[0], ps[1], ps[2], r);
    assert ps[..3] == [ps[0], ps[1], ps[2]];
  }

  lemma {:induction false} BootAccounted(k: Kernel)
    requires IsBoot(k)
    ensures Accounted(k)
  {
    forall r ensures AccountedFor(k, r) {
      TwoHold(k.procs, r);
      TwoGiven(k.trace, k.procs[1].stack, k.procs[2].stack, r);
    }
  }

  lemma {:induction false} BootGood(k: Kernel)
    requires IsBoot(k)
    ensures Good(k)
  {
    BootAccounted(k);
    forall i ensures NodeOk(k.procs, i) && NumberedAt(k.procs, i) && ProcOk(k.procs, k.cur, i) {}
    forall i, c ensures KidOk(k.procs, i, c) {}
    forall c ensures ParentOk(k.procs, c) {}
    forall n ensures EventOk(k.procs, k.trace, n) {}
  }

  lemma {:induction false} PathGood(ks: seq<Kernel>, steps: seq<Step>, n: nat)
    requires IsPath(ks, steps) && Good(ks[0]) && n < |ks|
    ensures Good(ks[n])
  {
    if n > 0 {
      PathGood(ks, steps, n - 1);
      assert StepsAt(ks, steps, n - 1);
      StepKeepsGood(ks[n - 1], steps[n - 1]);
    }
  }

  lemma {:induction false} ReachableGood(ks: seq<Kernel>, steps: seq<Step>, n: nat)
    requires IsRun(ks, steps) && n < |ks|
    ensures Good(ks[n])
  {
    BootGood(ks[0]);
    PathGood(ks, steps, n);
  }

  // ----- theorems

  /** In every reachable state: a stack or address space given to tasks is held in at
      most one place, and was released as often as it was given out and is no longer
      held; no release hit the stack or the CR3 in use; and a task that may exit finds
      the cleanup slot empty, so it is never overwritten. */
  lemma {:induction false} ReleasedExactlyOnce(ks: seq<Kernel>, steps: seq<Step>, n: nat, r: Resource)
    requires IsRun(ks, steps) && n < |ks|
    ensures Held(ks[n], r) <= 1
    ensures Acquired(ks[n].trace, r) - Released(ks[n].trace, r) == Held(ks[n], r)
    ensures forall e | e in ks[n].trace && e.FreeStack? :: e.freed != e.inUse
    ensures forall e | e in ks[n].trace && e.FreeSpace? :: e.freed != e.loaded
    ensures ks[n].pending.active ==> n < |steps| ==> !steps[n].Exit?
  {
    ReachableGood(ks, steps, n);
    assert AccountedFor(ks[n], r) && StepsAt(ks, steps, n);
    assert forall e | e in ks[n].trace :: SafeEvent(e);
  }

  lemma {:induction false} SomeHolder(ps: seq<Proc>, r: Resource) returns (i: nat)
    requires HeldBy(ps, r) > 0
    ensures i < |ps| && Holds(ps[i], r) > 0
  {
    var last := |ps| - 1;
    if Holds(ps[last], r) > 0 {
      i := last;
    } else {
      i := SomeHolder(ps[..last], r);
    }
  }

  /** Nothing leaks: what was given out more often than released is in the cleanup slot
      or held by a task that has not exited. */
  lemma {:induction false} NothingLeaks(ks: seq<Kernel>, steps: seq<Step>, n: nat, r: Resource) returns (i: nat)
    requires IsRun(ks, steps) && n < |ks|
    requires Acquired(ks[n].trace, r) > Released(ks[n].trace, r) && ks[n].pending == NO_PENDING
    ensures i < |ks[n].procs| && Holds(ks[n].procs[i], r) == 1 && !Gone(ks[n].procs[i])
  {
    var k := ks[n];
    ReachableGood(ks, steps, n);
    assert AccountedFor(k, r);
    i := SomeHolder(k.procs, r);
    HoldsPart(k, i, r);
    assert ProcOk(k.procs, k.cur, i);
  }

  /** In every reachable state a live task's child list is duplicate-free and is exactly
      the set of live tasks naming it as parent; no parent is Dead or a Zombie; and a
      task blocked in wait_for_child has no Zombie child. */
  lemma {:induction false} ChildListsExact(ks: seq<Kernel>, steps: seq<Step>, n: nat, i: nat, c: nat)
    requires IsRun(ks, steps) && n < |ks| && i < |ks[n].procs| && c < |ks[n].procs|
    ensures var ps := ks[n].procs;
            && NoDuplicates(ps[i].kids)
            && (c in ps[i].kids <==> Live(ps, c) && ps[c].parent == i)
            && (c in ps[i].kids ==> Live(ps, i) && !ps[i].state.Zombie?)
            && (c in ps[i].kids && WaitsBlocked(ps[i]) ==> !ps[c].state.Zombie?)
  {
    ReachableGood(ks, steps, n);
    var ps := ks[n].procs;
    assert NodeOk(ps, i) && KidOk(ps, i, c) && ParentOk(ps, c);
  }

  /** An exit code is delivered at most once, and what is delivered is the code the
      task exited with, as long as no slot has been used 2^56 times. */
  lemma {:induction false} DeliveredOnceUnchanged(ks: seq<Kernel>, steps: seq<Step>, n: nat, b: nat)
    requires IsRun(ks, steps) && n < |ks| && Young(ks[n].procs) && b < |ks[n].trace| && ks[n].trace[b].Delivered?
    ensures var t := ks[n].trace;
            && Exited(t[b].pid, t[b].code) in t[..b]
            && (forall a | 0 <= a < |t| && t[a].Exited? && t[a].pid == t[b].pid :: t[a].code == t[b].code)
            && (forall a | 0 <= a < |t| && a != b && t[a].Delivered? :: t[a].pid != t[b].pid)
  {
    ReachableGood(ks, steps, n);
    var k := ks[n];
    var t := k.trace;
    assert EventOk(k.procs, t, b);
    var e :| 0 <= e < b && t[..b][e] == Exited(t[b].pid, t[b].code);
    forall a | 0 <= a < |t| && t[a].Exited? && t[a].pid == t[b].pid ensures t[a].code == t[b].code {
      assert PairOk(t, a, e) && PairOk(t, e, a);
    }
    forall a | 0 <= a < |t| && a != b && t[a].Delivered? ensures t[a].pid != t[b].pid {
      assert PairOk(t, a, b) && PairOk(t, b, a);
    }
  }

  /** A delivery goes to the task that is the Zombie's parent at that moment, and takes
      its slot out of use. */
  lemma {:induction false} DeliveredToParent(ks: seq<Kernel>, steps: seq<Step>, n: nat)
    requires IsRun(ks, steps) && n < |steps| && steps[n].Wait?
    requires |ks[n + 1].trace| > |ks[n].trace| && ks[n + 1].trace[|ks[n].trace|].Delivered?
    ensures var k, k', e := ks[n], ks[n + 1], ks[n + 1].trace[|ks[n].trace|];
            exists c :: 0 <= c < |k.procs| == |k'.procs| && k.procs[c].state.Zombie? && k.procs[c].parent == k.cur
              && k.cur < |k.procs| && e == Delivered(k.procs[c].pid, k.procs[c].exitCode, k.procs[k.cur].pid)
              && k'.procs[c].state.Dead?
  {
    var k := ks[n];
    ReachableGood(ks, steps, n);
    assert StepsAt(ks, steps, n);
    var self := k.procs[k.cur];
    var z := FirstZombie(k.procs, self.kids);
    if z < |self.kids| {
      assert KidOk(k.procs, k.cur, self.kids[z]);
      assert k.procs[self.kids[z]].state.Zombie?;
    }
  }
}

/** Round-robin fairness and sleeping, over every stretch of a run. */
module TaskFairness {
  import opened Pids
  import opened TaskModel
  import opened TaskInvariants
  import opened TaskRuns

  /** The step ends in a call of reschedule. */
  predicate Reschedules(k: Kernel, step: Step)
    requires k.cur < |k.procs|
  {
    match step
    case Exit(_) => true
    case Block => true
    case Sleep(_) => true
    case Yield => true
    case Tick => k.tickCounter + 1 >= TICKS_PER_SWITCH
    case Wait =>
      var self := k.procs[k.cur];
      !(self.phase.Body? && self.kids == []) && FirstZombie(k.procs, self.kids) == |self.kids|
    case _ => false
  }

  predicate IsReady(k: Kernel, j: nat) {
    j < |k.procs| && k.procs[j].state.Ready?
  }

  /** Passing over a Ready task brings it strictly nearer. */
  lemma {:induction false} RescheduleNearer(k: Kernel, j: nat)
    requires k.cur < |k.procs| && IsReady(k, j) && j != k.cur && IsReady(Reschedule(k), j)
    ensures Reschedule(k).cur < |k.procs|
    ensures Distance(|k.procs|, Reschedule(k).cur, j) < Distance(|k.procs|, k.cur, j)
  {
    var n := |k.procs|;
    var d := Distance(n, k.cur, j);
    var e := NextReadyFirst(k.procs, k.cur, 1, d);
    assert e != d;
  }

  /** The state in which a rescheduling step calls reschedule. */
  function Before(k: Kernel, step: Step): Kernel
    requires k.cur < |k.procs| <= 255 && k.init < |k.procs|
  {
    var self := k.procs[k.cur];
    match step
    case Exit(code) => Depart(k, code)
    case Block => k.(procs := k.procs[k.cur := self.(state := Blocked, wakeTick := self.wakeTick)])
    case Sleep(ticks) =>
      k.(procs := k.procs[k.cur := self.(state := Sleeping, wakeTick := WakeAt(k.now, ticks))])
    case Wait => k.(procs := k.procs[k.cur := self.(state := Blocked, phase := Waiting)])
    case Tick => k.(now := k.now + 1, procs := WakeSleepers(k.procs, k.now + 1)).(tickCounter := 0)
    case _ => k
  }

  lemma {:induction false} BeforeReady(k: Kernel, step: Step, j: nat)
    requires Good(k) && CanStep(k, step) && Reschedules(k, step) && IsReady(k, j)
    ensures j != k.cur && IsReady(Before(k, step), j)
    ensures Before(k, step).cur == k.cur && |Before(k, step).procs| == |k.procs|
    ensures Apply(k, step) == Reschedule(Before(k, step))
  {
    assert ProcOk(k.procs, k.cur, j);
    if step.Exit? {
      DepartOthers(k, step.code);
    }
  }

  lemma {:induction false} StepNearer(k: Kernel, step: Step, j: nat)
    requires Good(k) && CanStep(k, step) && IsReady(k, j) && IsReady(Apply(k, step), j)
    ensures |Apply(k, step).procs| == |k.procs| && Apply(k, step).cur < |k.procs|
    ensures var d, d' := Distance(|k.procs|, k.cur, j), Distance(|k.procs|, Apply(k, step).cur, j);
            if Reschedules(k, step) then d' < d else Apply(k, step).cur == k.cur
  {
    if Reschedules(k, step) {
      BeforeReady(k, step, j);
      RescheduleNearer(Before(k, step), j);
    } else {
      StaysCurrent(k, step);
    }
  }

  lemma {:induction false} StaysCurrent(k: Kernel, step: Step)
    requires CanStep(k, step) && !Reschedules(k, step)
    ensures Apply(k, step).cur == k.cur && |Apply(k, step).procs| == |k.procs|
  {
  }

  function Reschedulings(ks: seq<Kernel>, steps: seq<Step>): nat
    requires |ks| >= |steps|
  {
    if steps == [] then 0
    else
      (if ks[0].cur < |ks[0].procs| && Reschedules(ks[0], steps[0]) then 1 else 0) + Reschedulings(ks[1..], steps[1..])
  }

  function Ticks(steps: seq<Step>): nat {
    if steps == [] then 0 else (if steps[0].Tick? then 1 else 0) + Ticks(steps[1..])
  }

  lemma {:induction false} PathTail(ks: seq<Kernel>, steps: seq<Step>)
    requires IsPath(ks, steps) && steps != [] && Good(ks[0])
    ensures IsPath(ks[1..], steps[1..]) && Good(ks[1])
  {
    assert StepsAt(ks, steps, 0);
    StepKeepsGood(ks[0], steps[0]);
    forall n ensures StepsAt(ks[1..], steps[1..], n) {
      assert StepsAt(ks, steps, n + 1);
    }
  }

  /** While a task stays Ready, the scheduler can pass it over at most as often as the
      cyclic distance from the running slot allows. */
  lemma {:induction false} PassedOver(ks: seq<Kernel>, steps: seq<Step>, j: nat)
    requires IsPath(ks, steps) && Good(ks[0]) && forall n | 0 <= n < |ks| :: IsReady(ks[n], j)
    ensures j < |ks[0].procs| && ks[0].cur < |ks[0].procs|
    ensures Reschedulings(ks, steps) < Distance(|ks[0].procs|, ks[0].cur, j)
  {
    assert IsReady(ks[0], j);
    assert ProcOk(ks[0].procs, ks[0].cur, j);
    if steps != [] {
      PathTail(ks, steps);
      assert IsReady(ks[1], j) && StepsAt(ks, steps, 0);
      StepNearer(ks[0], steps[0], j);
      PassedOver(ks[1..], steps[1..], j);
    }
  }

  lemma {:induction false} StepTicks(k: Kernel, step: Step)
    requires Good(k) && CanStep(k, step)
    ensures Apply(k, step).tickCounter
         == k.tickCounter + (if step.Tick? then 1 else 0)
            - (if step.Tick? && Reschedules(k, step) then TICKS_PER_SWITCH else 0)
  {
    if step.Exit? {
      assert Depart(k, step.code).tickCounter == k.tickCounter;
    }
  }

  /** Every fifth tick reschedules, however many voluntary switches come between. */
  lemma {:induction false} TicksReschedule(ks: seq<Kernel>, steps: seq<Step>)
    requires IsPath(ks, steps) && Good(ks[0])
    ensures ks[0].tickCounter + Ticks(steps) < TICKS_PER_SWITCH * (Reschedulings(ks, steps) + 1)
  {
    if steps != [] {
      PathTail(ks, steps);
      assert StepsAt(ks, steps, 0);
      StepTicks(ks[0], steps[0]);
      TicksReschedule(ks[1..], steps[1..]);
    }
  }

  /** A task that stays Ready through a stretch of any run sees fewer than
      5 * (cyclic distance) timer ticks: with 128 slots, fewer than 5 * 127. */
  lemma {:induction false} ReadyIsChosen(ks: seq<Kernel>, steps: seq<Step>, from: nat, to: nat, j: nat)
    requires IsRun(ks, steps) && from <= to < |ks|
    requires forall n | from <= n <= to :: IsReady(ks[n], j)
    ensures ks[from].cur < |ks[from].procs| && j < |ks[from].procs|
    ensures Ticks(steps[from..to]) < TICKS_PER_SWITCH * Distance(|ks[from].procs|, ks[from].cur, j)
    ensures Ticks(steps[from..to]) < TICKS_PER_SWITCH * (|ks[from].procs| - 1)
  {
    ReachableGood(ks, steps, from);
    assert IsReady(ks[from], j);
    var ks', steps' := ks[from..to + 1], steps[from..to];
    assert IsPath(ks', steps') by {
      forall n ensures StepsAt(ks', steps', n) { assert StepsAt(ks, steps, from + n); }
    }
    forall n | 0 <= n < |ks'| ensures IsReady(ks'[n], j) {
      assert IsReady(ks[from + n], j);
    }
    PassedOver(ks', steps', j);
    TicksReschedule(ks', steps');
    assert TICKS_PER_SWITCH * (Reschedulings(ks', steps') + 1)
        <= TICKS_PER_SWITCH * Distance(|ks'[0].procs|, ks'[0].cur, j);
  }

  // ----- sleeping

  predicate Asleep(k: Kernel, j: nat, wake: nat) {
    j < |k.procs| && k.procs[j].state.Sleeping? && k.procs[j].wakeTick == wake
  }

  lemma {:induction false} RescheduleAsleep(k: Kernel, j: nat, wake: nat)
    requires k.cur < |k.procs| && Asleep(k, j, wake)
    ensures Asleep(Reschedule(k), j, wake) && Reschedule(k).now == k.now
  {
  }

  lemma {:induction false} DepartAsleep(k: Kernel, code: int, j: nat, wake: nat)
    requires Good(k) && CanStep(k, Exit(code)) && Asleep(k, j, wake)
    ensures Asleep(Depart(k, code), j, wake)
  {
    assert ProcOk(k.procs, k.cur, j);
    var ps := k.procs[k.cur := k.procs[k.cur].(stack := 0, space := 0, exitCode := code)];
    if ps[k.cur].kids != [] {
      AdoptShape(ps, k.cur, k.init);
      assert AdoptedAt(ps, Adopt(ps, k.cur, k.init), k.cur, k.init, j);
    }
    BuryAsleep(Adopt(ps, k.cur, k.init), k.cur, j);
  }

  lemma {:induction false} BuryAsleep(ps: seq<Proc>, self: nat, j: nat)
    requires self < |ps| && j < |ps| && self != j && ps[j].state.Sleeping?
    ensures Bury(ps, self)[j] == ps[j]
  {
  }

  lemma {:induction false} TickAsleep(k: Kernel, j: nat, wake: nat)
    requires k.cur < |k.procs| && Asleep(k, j, wake)
    ensures TickStep(k).now == k.now + 1 && (Asleep(TickStep(k), j, wake) <==> k.now + 1 < wake)
  {
    var k1 := k.(now := k.now + 1, procs := WakeSleepers(k.procs, k.now + 1)).(tickCounter := 0);
    if k.now + 1 < wake { RescheduleAsleep(k1, j, wake); }
  }

  /** Steps that put the running task away leave a sleeper asleep. */
  lemma {:induction false} AwayAsleep(k: Kernel, p: Proc, j: nat, wake: nat)
    requires k.cur < |k.procs| && Asleep(k, j, wake) && j != k.cur
    ensures var k' := Reschedule(k.(procs := k.procs[k.cur := p])); Asleep(k', j, wake) && k'.now == k.now
  {
    RescheduleAsleep(k.(procs := k.procs[k.cur := p]), j, wake);
  }

  lemma {:induction false} WaitAsleep(k: Kernel, j: nat, wake: nat)
    requires k.cur < |k.procs| && Asleep(k, j, wake) && j != k.cur
    ensures Asleep(WaitStep(k), j, wake) && WaitStep(k).now == k.now
  {
    AwayAsleep(k, k.procs[k.cur].(state := Blocked, phase := Waiting), j, wake);
  }

  /** One step wakes a sleeper only if it is a tick that reaches its wake tick; a tick
      that reaches it always does. */
  lemma {:induction false} StepAsleep(k: Kernel, step: Step, j: nat, wake: nat)
    requires Good(k) && CanStep(k, step) && Asleep(k, j, wake)
    ensures Apply(k, step).now == k.now + (if step.Tick? then 1 else 0)
    ensures Asleep(Apply(k, step), j, wake) <==> !(step.Tick? && Apply(k, step).now >= wake)
  {
    assert ProcOk(k.procs, k.cur, j);
    var self := k.procs[k.cur];
    match step {
      case Exit(code) =>
        DepartAsleep(k, code, j, wake);
        RescheduleAsleep(Depart(k, code), j, wake);
      case Block => AwayAsleep(k, self.(state := Blocked, wakeTick := self.wakeTick), j, wake);
      case Sleep(ticks) => AwayAsleep(k, self.(state := Sleeping, wakeTick := WakeAt(k.now, ticks)), j, wake);
      case Yield => RescheduleAsleep(k, j, wake);
      case Wait => WaitAsleep(k, j, wake);
      case Tick => TickAsleep(k, j, wake);
      case _ =>
    }
  }

  lemma {:induction false} StaysAsleep(ks: seq<Kernel>, steps: seq<Step>, n: nat, j: nat, wake: nat)
    requires IsRun(ks, steps) && n < |steps|
    ensures ks[n].now <= ks[n + 1].now
    ensures Asleep(ks[n], j, wake) && ks[n + 1].now < wake ==> Asleep(ks[n + 1], j, wake)
  {
    var k, step := ks[n], steps[n];
    ReachableGood(ks, steps, n);
    assert StepsAt(ks, steps, n);
    StepNow(k, step);
    if Asleep(k, j, wake) { StepAsleep(k, step, j, wake); }
  }

  lemma {:induction false} StepNow(k: Kernel, step: Step)
    requires CanStep(k, step)
    ensures Apply(k, step).now >= k.now
  {
    if step.Exit? { assert Depart(k, step.code).now == k.now; }
  }

  /** A sleeper stays asleep at least until its wake tick, whatever else happens. */
  lemma {:induction false} NotWokenEarly(ks: seq<Kernel>, steps: seq<Step>, a: nat, b: nat, j: nat, wake: nat)
    requires IsRun(ks, steps) && a <= b < |ks| && Asleep(ks[a], j, wake) && ks[b].now < wake
    ensures Asleep(ks[b], j, wake)
  {
    if a < b {
      StaysAsleep(ks, steps, b - 1, j, wake);
      NotWokenEarly(ks, steps, a, b - 1, j, wake);
    }
  }

  /** sleep_current(ticks) keeps the caller asleep for at least `ticks` ticks, as long as
      the wake tick does not wrap around 2^64. */
  lemma {:induction false} SleepsLongEnough(ks: seq<Kernel>, steps: seq<Step>, a: nat, b: nat)
    requires IsRun(ks, steps) && a < b < |ks| && steps[a].Sleep?
    requires ks[a].now + steps[a].ticks < TWO_64
    requires ks[b].now < ks[a].now + steps[a].ticks
    ensures Asleep(ks[b], ks[a].cur, ks[a].now + steps[a].ticks)
  {
    ReachableGood(ks, steps, a);
    assert StepsAt(ks, steps, a);
    var wake := ks[a].now + steps[a].ticks;
    RescheduleAsleep(Before(ks[a], steps[a]), ks[a].cur, wake);
    NotWokenEarly(ks, steps, a + 1, b, ks[a].cur, wake);
  }
}

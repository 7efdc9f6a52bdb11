/** The task machine of kernel/task.cpp and kernel/scheduler.cpp over values.

    A child list is a sequence of slots here; `TaskTable` proves that the PID-linked
    lists of the source implement it. One step is one kernel call taken as a unit, a
    timer interrupt, or one micro-step of `task_trampoline`, which runs with interrupts
    on (a new task starts with RFLAGS 0x202) and can be preempted between any two. */
module TaskModel {
  import opened Pids

  datatype RunState = Dead | New | Ready | Running | Blocked | Sleeping | Zombie

  /** Where a task resumes. All but NotStarted resume inside switch_to, which
      reaps before returning; NotStarted enters task_trampoline instead. */
  datatype Phase =
    | NotStarted
    | Entry                                // first instruction of task_trampoline
    | Checked                              // saw pending_cleanup.active
    | Taken(takenStack: nat, takenSpace: nat) // copied and cleared it, interrupts on again
    | Freed(freedSpace: nat)               // kernel stack released, address space not yet
    | Body                                 // running its entry function
    | Waiting                              // inside the loop of wait_for_child

  /** `stack` and `space` are stack_base and cr3, 0 when absent; `saved` is the kernel
      stack the saved rsp points into, 0 for the boot stack. */
  datatype Proc = Proc(state: RunState, pid: Pid, generation: nat, parent: int, kids: seq<nat>,
                       exitCode: int, wakeTick: nat, stack: nat, space: nat, saved: nat, phase: Phase)

  datatype Pending = Pending(stack: nat, space: nat, active: bool)

  datatype Event =
    | Spawned(pid: Pid, stack: nat, space: nat)
    | FreeStack(freed: nat, inUse: nat)      // kfree of a stack, and the stack in use then
    | FreeSpace(freed: nat, loaded: nat)     // destroy_address_space, and CR3 then
    | Exited(pid: Pid, code: int)
    | Delivered(pid: Pid, code: int, to: Pid)

  datatype Kernel = Kernel(procs: seq<Proc>, cur: nat, onStack: nat, loaded: nat, pending: Pending,
                           now: nat, tickCounter: nat, idle: nat, init: nat, kernelSpace: nat,
                           trace: seq<Event>)

  datatype Step =
    | Create(stack: nat, space: nat)   // stack is what kmalloc returned, 0 when it failed
    | Exit(code: int)
    | Wait
    | Block
    | Unblock(slot: nat)
    | Sleep(ticks: nat)
    | Yield
    | Tick
    | Trampoline

  const NO_PENDING := Pending(0, 0, false)
  const TICKS_PER_SWITCH: nat := 5

  predicate Live(ps: seq<Proc>, i: int) {
    0 <= i < |ps| && !ps[i].state.Dead?
  }

  // ----- scheduling

  /** (start + offset) % n for an offset of at most n. */
  function Around(n: nat, start: nat, offset: nat): (i: nat)
    requires start < n && offset <= n
    ensures i < n
  {
    if start + offset < n then start + offset else start + offset - n
  }

  lemma {:induction false} AroundIsRemainder(n: nat, start: nat, offset: nat)
    requires start < n && offset <= n
    ensures (start + offset) % n == Around(n, start, offset)
  {
    var x := Around(n, start, offset);
    if start + offset >= n {
      assert (x + n) % n == x;
    }
  }

  /** The slots tried by reschedule, in order: the first Ready one at or after
      start + offset, cyclically; -1 when none is. */
  function NextReady(ps: seq<Proc>, start: nat, offset: nat): (i: int)
    requires start < |ps|
    ensures i == -1 || (0 <= i < |ps| && ps[i].state.Ready?)
    decreases |ps| + 1 - offset
  {
    if offset > |ps| then -1
    else if ps[Around(|ps|, start, offset)].state.Ready? then Around(|ps|, start, offset)
    else NextReady(ps, start, offset + 1)
  }

  function Target(k: Kernel, space: nat): nat {
    if space != 0 then space else k.kernelSpace
  }

  function ReleaseEvents(stack: nat, space: nat, inUse: nat, loaded: nat): seq<Event> {
    (if stack != 0 then [FreeStack(stack, inUse)] else []) +
    (if space != 0 then [FreeSpace(space, loaded)] else [])
  }

  function Reap(k: Kernel): Kernel {
    if !k.pending.active then k
    else k.(pending := NO_PENDING,
            trace := k.trace + ReleaseEvents(k.pending.stack, k.pending.space, k.onStack, k.loaded))
  }

  /** switch_to up to the point where the other task's context is in place. */
  function SwitchContext(k: Kernel, next: nat): Kernel
    requires k.cur < |k.procs| && next < |k.procs|
  {
    var prev, p := k.procs[k.cur], k.procs[next];
    var prev' := prev.(state := if prev.state.Running? then Ready else prev.state, saved := k.onStack);
    var p' := p.(state := Running, phase := if p.phase.NotStarted? then Entry else p.phase);
    k.(procs := k.procs[k.cur := prev'][next := p'], cur := next,
       loaded := Target(k, p.space), onStack := p.saved)
  }

  function SwitchTo(k: Kernel, next: nat): Kernel
    requires k.cur < |k.procs| && next < |k.procs|
  {
    if next == k.cur then k
    else if k.procs[next].phase.NotStarted? then SwitchContext(k, next)
    else Reap(SwitchContext(k, next))
  }

  function Reschedule(k: Kernel): Kernel
    requires k.cur < |k.procs|
  {
    var next := NextReady(k.procs, k.cur, 1);
    if next < 0 then k else SwitchTo(k, next)
  }

  // ----- creation

  function FreeSlot(ps: seq<Proc>, from: nat): (i: int)
    requires from <= |ps|
    ensures i == -1 || (from <= i < |ps| && ps[i].state.Dead?)
    decreases |ps| - from
  {
    if from == |ps| then -1
    else if ps[from].state.Dead? && ps[from].generation != PID_GENERATION_MAX then from
    else FreeSlot(ps, from + 1)
  }

  function NewProc(slot: nat, generation: nat, parent: nat, stack: nat, space: nat): Proc
    requires IsSlot(slot)
  {
    Proc(Ready, MakePid(slot, generation), generation, parent, [], 0, 0, stack, space, stack, NotStarted)
  }

  function CreateStep(k: Kernel, stack: nat, space: nat): Kernel
    requires k.cur < |k.procs| <= 255
  {
    var i := FreeSlot(k.procs, 0);
    if i < 0 || stack == 0 then k
    else
      var child := NewProc(i, k.procs[i].generation + 1, k.cur, stack, space);
      var ps := k.procs[i := child];
      var ps := ps[k.cur := ps[k.cur].(kids := [i] + ps[k.cur].kids)];
      k.(procs := ps, trace := k.trace + [Spawned(child.pid, stack, space)])
  }

  // ----- exit

  function Reversed(s: seq<nat>): (r: seq<nat>)
    ensures |r| == |s|
  {
    if s == [] then [] else Reversed(s[1..]) + [s[0]]
  }

  function WakeSlot(ps: seq<Proc>, i: int): (r: seq<Proc>)
    ensures |r| == |ps|
  {
    if 0 <= i < |ps| && ps[i].state.Blocked? then ps[i := ps[i].(state := Ready)] else ps
  }

  function Reparent(ps: seq<Proc>, ids: seq<nat>, to: nat): (r: seq<Proc>)
    ensures |r| == |ps|
  {
    seq(|ps|, i requires 0 <= i < |ps| => if i in ids then ps[i].(parent := to) else ps[i])
  }

  /** The whole child list of `self` goes to the front of init's, last child first. */
  function Adopt(ps: seq<Proc>, self: nat, init: nat): (r: seq<Proc>)
    requires self < |ps| && init < |ps|
    ensures |r| == |ps|
  {
    if self == init || ps[self].kids == [] then ps
    else
      var kids := ps[self].kids;
      var ps1 := WakeSlot(Reparent(ps, kids, init), init);
      var ps2 := ps1[init := ps1[init].(kids := Reversed(kids) + ps1[init].kids)];
      ps2[self := ps2[self].(kids := [])]
  }

  /** A Zombie if the parent still exists, which is woken; otherwise Dead at once. */
  function Bury(ps: seq<Proc>, self: nat): (r: seq<Proc>)
    requires self < |ps|
    ensures |r| == |ps|
  {
    var p := ps[self];
    if Live(ps, p.parent) then WakeSlot(ps[self := p.(state := Zombie)], p.parent)
    else ps[self := p.(state := Dead, parent := -1)]
  }

  /** Everything exit_current does before it reschedules. */
  function Depart(k: Kernel, code: int): Kernel
    requires k.cur < |k.procs| && k.init < |k.procs|
  {
    var self := k.procs[k.cur];
    var ps := k.procs[k.cur := self.(stack := 0, space := 0, exitCode := code)];
    k.(procs := Bury(Adopt(ps, k.cur, k.init), k.cur),
       pending := Pending(self.stack, self.space, self.stack != 0 || self.space != 0),
       trace := k.trace + [Exited(self.pid, code)])
  }

  // ----- wait

  /** Position in `ids` of the first Zombie, |ids| when there is none. */
  function FirstZombie(ps: seq<Proc>, ids: seq<nat>): (n: nat)
    ensures n <= |ids|
    ensures n < |ids| ==> Live(ps, ids[n]) && ps[ids[n]].state.Zombie?
    ensures forall m :: 0 <= m < n && Live(ps, ids[m]) ==> !ps[ids[m]].state.Zombie?
  {
    if ids == [] then 0
    else if Live(ps, ids[0]) && ps[ids[0]].state.Zombie? then 0
    else 1 + FirstZombie(ps, ids[1..])
  }

  function Without(s: seq<nat>, n: nat): seq<nat>
    requires n < |s|
  {
    s[..n] + s[n + 1..]
  }

  function ReapChild(k: Kernel, n: nat): Kernel
    requires k.cur < |k.procs| && n < |k.procs[k.cur].kids| && k.procs[k.cur].kids[n] < |k.procs|
  {
    var self := k.procs[k.cur];
    var c := self.kids[n];
    var child := k.procs[c];
    var ps := k.procs[k.cur := self.(kids := Without(self.kids, n), phase := Body)];
    k.(procs := ps[c := ps[c].(state := Dead, parent := -1)],
       trace := k.trace + [Delivered(child.pid, child.exitCode, self.pid)])
  }

  /** One pass of wait_for_child: scan, then deliver or block, as a unit. */
  function WaitStep(k: Kernel): Kernel
    requires k.cur < |k.procs|
  {
    var self := k.procs[k.cur];
    if self.phase.Body? && self.kids == [] then k
    else
      var n := FirstZombie(k.procs, self.kids);
      if n < |self.kids| then ReapChild(k, n)
      else Reschedule(k.(procs := k.procs[k.cur := self.(state := Blocked, phase := Waiting)]))
  }

  // ----- timer

  function WakeSleepers(ps: seq<Proc>, now: nat): (r: seq<Proc>)
    ensures |r| == |ps|
  {
    seq(|ps|, i requires 0 <= i < |ps| =>
      if ps[i].state.Sleeping? && now >= ps[i].wakeTick then ps[i].(state := Ready) else ps[i])
  }

  function TickStep(k: Kernel): Kernel
    requires k.cur < |k.procs|
  {
    var k1 := k.(now := k.now + 1, procs := WakeSleepers(k.procs, k.now + 1));
    if k.tickCounter + 1 < TICKS_PER_SWITCH then k1.(tickCounter := k.tickCounter + 1)
    else Reschedule(k1.(tickCounter := 0))
  }

  function TrampolineStep(k: Kernel): Kernel
    requires k.cur < |k.procs|
  {
    var self := k.procs[k.cur];
    match self.phase
    case Entry =>
      k.(procs := k.procs[k.cur := self.(phase := if k.pending.active then Checked else Body)])
    case Checked =>
      k.(procs := k.procs[k.cur := self.(phase := Taken(k.pending.stack, k.pending.space))],
         pending := NO_PENDING)
    case Taken(stack, space) =>
      k.(procs := k.procs[k.cur := self.(phase := Freed(space))],
         trace := k.trace + ReleaseEvents(stack, 0, k.onStack, k.loaded))
    case Freed(space) =>
      k.(procs := k.procs[k.cur := self.(phase := Body)],
         trace := k.trace + ReleaseEvents(0, space, k.onStack, k.loaded))
    case _ => k
  }

  function WakeAt(now: nat, ticks: nat): nat {
    (now + ticks) % TWO_64
  }

  function Park(k: Kernel, state: RunState, wakeTick: nat): Kernel
    requires k.cur < |k.procs|
  {
    Reschedule(k.(procs := k.procs[k.cur := k.procs[k.cur].(state := state, wakeTick := wakeTick)]))
  }

  function Apply(k: Kernel, step: Step): Kernel
    requires k.cur < |k.procs| <= 255 && k.init < |k.procs|
  {
    match step
    case Create(stack, space) => CreateStep(k, stack, space)
    case Exit(code) => Reschedule(Depart(k, code))
    case Wait => WaitStep(k)
    case Block => Park(k, Blocked, k.procs[k.cur].wakeTick)
    case Unblock(slot) => k.(procs := WakeSlot(k.procs, slot))
    case Sleep(ticks) => Park(k, Sleeping, WakeAt(k.now, ticks))
    case Yield => Reschedule(k)
    case Tick => TickStep(k)
    case Trampoline => TrampolineStep(k)
  }

  // ----- resources

  /** A kernel stack or a private PML4, by address. */
  datatype Resource = Stack(addr: nat) | Space(addr: nat)

  /** How often a stack and address space pair contains `r`; 0 is "none". */
  function Count(stack: nat, space: nat, r: Resource): nat {
    match r
    case Stack(a) => if a != 0 && a == stack then 1 else 0
    case Space(a) => if a != 0 && a == space then 1 else 0
  }

  /** How often a task answers for `r`: what it runs on, and what its trampoline has
      taken over but not released yet. */
  function Holds(p: Proc, r: Resource): nat {
    Count(p.stack, p.space, r) +
    match p.phase
    case Taken(stack, space) => Count(stack, space, r)
    case Freed(space) => Count(0, space, r)
    case _ => 0
  }

  function HeldBy(ps: seq<Proc>, r: Resource): nat {
    if ps == [] then 0 else HeldBy(ps[..|ps| - 1], r) + Holds(ps[|ps| - 1], r)
  }

  function Held(k: Kernel, r: Resource): nat {
    HeldBy(k.procs, r) + Count(k.pending.stack, k.pending.space, r)
  }

  function Acquires(e: Event, r: Resource): nat {
    match e
    case Spawned(_, stack, space) => Count(stack, space, r)
    case _ => 0
  }

  function Releases(e: Event, r: Resource): nat {
    match e
    case FreeStack(stack, _) => Count(stack, 0, r)
    case FreeSpace(space, _) => Count(0, space, r)
    case _ => 0
  }

  /** How often `r` was given to a new task. */
  function Acquired(t: seq<Event>, r: Resource): nat {
    if t == [] then 0 else Acquired(t[..|t| - 1], r) + Acquires(t[|t| - 1], r)
  }

  /** How often `r` was released. */
  function Released(t: seq<Event>, r: Resource): nat {
    if t == [] then 0 else Released(t[..|t| - 1], r) + Releases(t[|t| - 1], r)
  }

  // ----- which steps the running program can take

  /** idle only ever halts, and init only waits and sleeps. A created task's
      stack and address space are not in use. */
  predicate Enabled(k: Kernel, step: Step)
    requires k.cur < |k.procs| <= 255
  {
    var self := k.procs[k.cur];
    match step
    case Tick => true
    case Trampoline => !self.phase.Body? && !self.phase.Waiting?
    case Wait => (self.phase.Body? || self.phase.Waiting?) && k.cur != k.idle
    case Create(stack, space) =>
      && self.phase.Body? && k.cur != k.idle && k.cur != k.init
      && Held(k, Stack(stack)) == 0 && Held(k, Space(space)) == 0 && space != k.kernelSpace
    case Exit(_) => self.phase.Body? && k.cur != k.idle && k.cur != k.init
    case Sleep(_) => self.phase.Body? && k.cur != k.idle
    case Block => self.phase.Body? && k.cur != k.idle && k.cur != k.init
    case _ => self.phase.Body? && k.cur != k.idle
  }

  /** The state task::init leaves: the shell running on the boot stack, then idle and init. */
  function Boot(n: nat, idleStack: nat, initStack: nat, kernelSpace: nat): Kernel
    requires 3 <= n <= 255
  {
    var shell := Proc(Running, MakePid(0, 1), 1, -1, [], 0, 0, 0, 0, 0, Body);
    var idle := NewProc(1, 1, 0, idleStack, 0).(parent := -1);
    var init := NewProc(2, 1, 0, initStack, 0).(parent := -1);
    var unused := Proc(Dead, NO_PID, 0, -1, [], 0, 0, 0, 0, 0, NotStarted);
    Kernel([shell, idle, init] + seq(n - 3, i => unused), 0, 0, kernelSpace, NO_PENDING,
           0, 0, 1, 2, kernelSpace,
           [Spawned(idle.pid, idleStack, 0), Spawned(init.pid, initStack, 0)])
  }
}

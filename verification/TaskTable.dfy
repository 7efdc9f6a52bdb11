/** kernel/task.cpp and kernel/scheduler.cpp as code: a table of tasks updated in place,
    with child lists linked by PID. Every operation is proved to take exactly the step of
    `TaskModel` it stands for, so the theorems of `TaskRuns` and `TaskFairness` are about it. */
module TaskTable {
  import opened Pids
  import opened TaskModel
  import opened TaskInvariants
  import opened TaskRuns
  import opened TaskEffects
  import opened TaskLinks

  /** How a pass of wait_for_child ends: false, true with a child, or blocked in its loop. */
  datatype Outcome = NoChildren | Reaped(pid: Pid, code: int) | StillWaiting

  /** The outcome of a pass that starts in state k. */
  function WaitOutcome(k: Kernel): Outcome
    requires k.cur < |k.procs|
  {
    var self := k.procs[k.cur];
    var n := FirstZombie(k.procs, self.kids);
    if self.phase.Body? && self.kids == [] then NoChildren
    else if n < |self.kids| then Reaped(k.procs[self.kids[n]].pid, k.procs[self.kids[n]].exitCode)
    else StillWaiting
  }

  /** The outcome names the n-th child and the code it exited with. */
  predicate Reports(k: Kernel, n: nat, outcome: Outcome) {
    && k.cur < |k.procs| && n < |k.procs[k.cur].kids| && k.procs[k.cur].kids[n] < |k.procs|
    && var child := k.procs[k.procs[k.cur].kids[n]];
       outcome == Reaped(child.pid, child.exitCode)
  }

  lemma {:induction false} OutcomeExact(k: Kernel)
    requires Good(k) && CanStep(k, Wait)
    ensures var self, outcome := k.procs[k.cur], WaitOutcome(k);
            && (outcome.NoChildren? <==> self.phase.Body? && self.kids == [])
            && (outcome.Reaped? <==> HasZombie(k))
            && (outcome.Reaped? ==> exists n :: Collected(k, Apply(k, Wait), n) && Reports(k, n, outcome))
  {
    ZombieFound(k);
    if HasZombie(k) {
      var n := WaitCollects(k);
      FirstOnly(k, n);
      assert Reports(k, n, WaitOutcome(k));
    }
  }

  lemma {:induction false} FirstOnly(k: Kernel, n: nat)
    requires Good(k) && CanStep(k, Wait) && Collected(k, Apply(k, Wait), n)
    ensures n == FirstZombie(k.procs, k.procs[k.cur].kids)
  {
    var ids := k.procs[k.cur].kids;
    assert KidOk(k.procs, k.cur, ids[n]);
    var z := FirstZombie(k.procs, ids);
    var seen := z < |ids| && IsZombie(k, ids[z]);
  }

  class Table {
    const tasks: array<Task>
    var currentIndex: nat
    var kernelCr3: nat
    var loadedCr3: nat
    var pendingCleanup: Pending
    var initPid: Pid
    var timerTicks: nat
    var tickCounter: nat
    var onStack: nat               // the kernel stack the processor runs on

    ghost var kids: seq<seq<nat>>  // the slots on each task's child list
    ghost var idleSlot: nat
    ghost var initSlot: nat
    ghost var trace: seq<Event>

    ghost function Abs(): Kernel
      requires |kids| == tasks.Length
      reads this, tasks
    {
      Kernel(Procs(tasks[..], kids), currentIndex, onStack, loadedCr3, pendingCleanup, timerTicks,
             tickCounter, idleSlot, initSlot, kernelCr3, trace)
    }

    ghost predicate Valid()
      reads this, tasks
    {
      && Linkage(tasks[..], kids)
      && Good(Abs())
      && initPid == tasks[initSlot].pid
    }

    /** task::init: the shell runs on the boot stack, and idle and init are created as its
        children and taken off its list again. */
    constructor (slots: nat, idleStack: nat, initStack: nat, cr3: nat)
      requires 3 <= slots <= 255 && idleStack != 0 && initStack != 0 && idleStack != initStack && cr3 != 0
      ensures fresh(tasks) && Valid() && Abs() == Boot(slots, idleStack, initStack, cr3)
    {
      tasks := new Task[slots](_ => UNUSED);
      kernelCr3, loadedCr3, onStack, currentIndex := cr3, cr3, 0, 0;
      pendingCleanup, timerTicks, tickCounter := NO_PENDING, 0, 0;
      kids, trace := seq(slots, _ => []), [];
      idleSlot, initSlot, initPid := 1, 2, NO_PID;
      new;
      FirstTasks(idleStack, initStack);
      initPid := tasks[2].pid;
      BootTable(tasks[..], kids, idleStack, initStack, cr3);
      assert Abs() == Boot(slots, idleStack, initStack, cr3);
      BootGood(Abs());
    }

    method FirstTasks(idleStack: nat, initStack: nat)
      requires 3 <= tasks.Length <= 255 && currentIndex == 0 && |kids| == tasks.Length
      requires forall i | 0 <= i < tasks.Length :: tasks[i] == UNUSED && kids[i] == []
      modifies this`kids, this`trace, tasks
      ensures tasks[..] == BootTasks(tasks.Length, idleStack, initStack)
      ensures |kids| == tasks.Length && forall i | 0 <= i < tasks.Length :: kids[i] == []
      ensures trace == old(trace) + [Spawned(MakePid(1, 1), idleStack, 0), Spawned(MakePid(2, 1), initStack, 0)]
    {
      tasks[0] := UNUSED.(state := Running, pid := MakePid(0, 1), generation := 1, phase := Body);
      FillSlot(1, idleStack, 0);
      Disown(1);
      FillSlot(2, initStack, 0);
      Disown(2);
    }

    /** The only child of the current task leaves its list and loses its parent. */
    method Disown(child: nat)
      requires |kids| == tasks.Length && currentIndex < tasks.Length && child < tasks.Length && child != currentIndex
      requires kids[currentIndex] == [child] && tasks[child].nextSibling == NO_PID
      requires tasks[currentIndex].firstChild == tasks[child].pid
      requires FindPid(tasks[..], tasks[child].pid) == child
      modifies this`kids, tasks
      ensures kids == old(kids)[currentIndex := []]
      ensures tasks[..] == old(tasks[..])[currentIndex := old(tasks[currentIndex]).(firstChild := NO_PID)]
                                         [child := old(tasks[child]).(parentPid := NO_PID)]
    {
      RemoveChild(currentIndex, tasks[child].pid, [child], 0);
      tasks[child] := tasks[child].(parentPid := NO_PID);
      kids := kids[currentIndex := []];
    }

    /** The slot of the live task with the PID; a negative result means that there is none, as
        long as every live task carries the PID of its own slot. */
    method FindByPid(pid: Pid) returns (i: int)
      ensures i == FindPid(tasks[..], pid)
      ensures i >= 0 ==> pid != NO_PID && i < tasks.Length && IsLive(tasks[i], pid)
      ensures i < 0 && OwnPids(tasks[..]) ==> NoneLive(tasks[..], pid)
    {
      if OwnPids(tasks[..]) { NotFound(tasks[..], pid); }
      if pid == NO_PID { return -1; }
      var index := SlotOf(pid);
      if index < 0 || index >= tasks.Length { return -1; }
      if tasks[index].state.Dead? || tasks[index].pid != pid { return -1; }
      return index;
    }

    /** The first Dead slot with a generation left; a negative result means that there is none. */
    method FindFreeSlot() returns (slot: int)
      requires |kids| == tasks.Length
      ensures slot == FreeSlot(Abs().procs, 0)
      ensures slot >= 0 ==> slot < tasks.Length && Reusable(tasks[slot])
      ensures forall j | 0 <= j < (if slot >= 0 then slot else tasks.Length) :: !Reusable(tasks[j])
    {
      var i := 0;
      while i < tasks.Length
        invariant 0 <= i <= tasks.Length
        invariant FreeSlot(Abs().procs, i) == FreeSlot(Abs().procs, 0)
        invariant forall j | 0 <= j < i :: !Reusable(tasks[j])
      {
        if tasks[i].state.Dead? && tasks[i].generation != PID_GENERATION_MAX { return i; }
        i := i + 1;
      }
      return -1;
    }

    method AddChild(parent: nat, child: nat)
      requires parent < tasks.Length && child < tasks.Length && parent != child
      modifies tasks
      ensures tasks[..] == old(tasks[..])[child := old(tasks[child]).(nextSibling := old(tasks[parent]).firstChild)]
                                         [parent := old(tasks[parent]).(firstChild := old(tasks[child]).pid)]
    {
      tasks[child] := tasks[child].(nextSibling := tasks[parent].firstChild);
      tasks[parent] := tasks[parent].(firstChild := tasks[child].pid);
    }

    /** `ids` are the slots on the list of `parent`; n of them come before the child, all of
        them when it is not on the list. */
    method RemoveChild(parent: nat, childPid: Pid, ghost ids: seq<nat>, ghost n: nat)
      requires parent < tasks.Length && Slots(ids, tasks.Length) && NoDuplicates(ids) && n <= |ids|
      requires Linked(tasks[..], tasks[parent].firstChild, ids) && parent !in ids
      requires forall m | 0 <= m < |ids| :: FindPid(tasks[..], tasks[ids[m]].pid) == ids[m]
      requires forall m | 0 <= m < n :: tasks[ids[m]].pid != childPid
      requires n < |ids| ==> tasks[ids[n]].pid == childPid
      requires childPid != NO_PID
      modifies tasks
      ensures tasks[..] == if n < |ids| then Unlink(old(tasks[..]), parent, ids, n) else old(tasks[..])
    {
      ghost var ts := tasks[..];
      if tasks[parent].firstChild == childPid {
        var child := FindByPid(childPid);
        tasks[parent] := tasks[parent].(firstChild := if child >= 0 then tasks[child].nextSibling else NO_PID);
        return;
      }
      var prevPid := tasks[parent].firstChild;
      ghost var m := 0;
      while prevPid != NO_PID
        invariant 0 <= m <= |ids| && tasks[..] == ts
        invariant Linked(ts, prevPid, ids[m..])
        invariant m < |ids| ==> prevPid == ts[ids[m]].pid
        invariant m <= n && (m == n ==> n == |ids|)
        decreases |ids| - m
      {
        assert ids[m..][0] == ids[m] && ids[m..][1..] == ids[m + 1..];
        var prev := FindByPid(prevPid);
        if prev < 0 { return; }
        if tasks[prev].nextSibling == childPid {
          assert m + 1 < |ids| && ids[m + 1..][0] == ids[m + 1];
          var child := FindByPid(childPid);
          tasks[prev] := tasks[prev].(nextSibling := if child >= 0 then tasks[child].nextSibling else NO_PID);
          return;
        }
        prevPid := tasks[prev].nextSibling;
        m := m + 1;
        if m < |ids| { assert ids[m..][0] == ids[m]; }
      }
    }

    // ----- switching

    method ReapPendingCleanup()
      requires |kids| == tasks.Length
      modifies this`pendingCleanup, this`trace
      ensures Abs() == TaskModel.Reap(old(Abs()))
    {
      if !pendingCleanup.active { return; }
      var stackBase := pendingCleanup.stack;
      var cr3 := pendingCleanup.space;
      pendingCleanup := NO_PENDING;
      // heap::kfree and paging::destroy_address_space
      trace := trace + ReleaseEvents(stackBase, cr3, onStack, loadedCr3);
    }

    /** switch_to up to and including switch_context. */
    method SwitchContext(next: nat)
      requires |kids| == tasks.Length && currentIndex < tasks.Length && next < tasks.Length
      requires tasks[next].state.Ready? && next != currentIndex
      modifies this, tasks
      ensures kids == old(kids) && initPid == old(initPid)
      ensures Abs() == TaskModel.SwitchContext(old(Abs()), next)
      ensures forall i | 0 <= i < tasks.Length :: SameTies(old(tasks[i]), tasks[i])
    {
      var prev := currentIndex;
      ghost var ts := tasks[..];
      var leaving, coming := tasks[prev], tasks[next];
      var targetCr3 := if coming.cr3 != 0 then coming.cr3 else kernelCr3;
      if targetCr3 != loadedCr3 {
        loadedCr3 := targetCr3;
      }
      tasks[prev] := leaving.(state := if leaving.state.Running? then Ready else leaving.state, rsp := onStack);
      tasks[next] := coming.(state := Running, phase := if coming.phase.NotStarted? then Entry else coming.phase);
      currentIndex := next;
      onStack := coming.rsp;
      SwitchTies(ts, kids, prev, next, tasks[prev], tasks[next]);
      assert tasks[..] == ts[prev := tasks[prev]][next := tasks[next]];
    }

    method SwitchTo(next: nat)
      requires |kids| == tasks.Length && currentIndex < tasks.Length && next < tasks.Length
      requires tasks[next].state.Ready?
      modifies this, tasks
      ensures kids == old(kids) && initPid == old(initPid)
      ensures Abs() == TaskModel.SwitchTo(old(Abs()), next)
      ensures forall i | 0 <= i < tasks.Length :: SameTies(old(tasks[i]), tasks[i])
    {
      if next == currentIndex { return; }
      var starting := tasks[next].phase.NotStarted?;
      SwitchContext(next);
      // a task that has not started resumes in task_trampoline, the others here
      if !starting {
        ReapPendingCleanup();
      }
    }

    method Reschedule()
      requires |kids| == tasks.Length && currentIndex < tasks.Length
      modifies this, tasks
      ensures kids == old(kids) && initPid == old(initPid)
      ensures Abs() == TaskModel.Reschedule(old(Abs()))
      ensures forall i | 0 <= i < tasks.Length :: SameTies(old(tasks[i]), tasks[i])
    {
      var start := currentIndex;
      var offset := 1;
      while offset <= tasks.Length
        invariant 1 <= offset <= tasks.Length + 1
        invariant kids == old(kids) && initPid == old(initPid) && start == currentIndex
        invariant tasks[..] == old(tasks[..]) && Abs() == old(Abs())
        invariant NextReady(Abs().procs, start, offset) == NextReady(Abs().procs, start, 1)
      {
        AroundIsRemainder(tasks.Length, start, offset);
        var i := (start + offset) % tasks.Length;
        assert Abs().procs[i] == ToProc(tasks[i], kids[i]);
        if tasks[i].state.Ready? {
          SwitchTo(i);
          return;
        }
        offset := offset + 1;
      }
    }

    // ----- blocking, sleeping, waking

    /** The caller's slot is found and made Ready if it is Blocked; anything else is ignored. */
    method Unblock(pid: Pid)
      modifies tasks
      ensures tasks[..] == WakePid(old(tasks[..]), pid)
    {
      var t := FindByPid(pid);
      if t >= 0 && tasks[t].state.Blocked? {
        tasks[t] := tasks[t].(state := Ready);
      }
    }

    /** unblock as a step of the machine. */
    method UnblockTask(pid: Pid)
      requires Valid() && CanStep(Abs(), Step.Unblock(0))
      modifies tasks
      ensures Valid()
      ensures var slot := FindPid(old(tasks[..]), pid);
              Abs() == if slot >= 0 then Apply(old(Abs()), Step.Unblock(slot)) else old(Abs())
      ensures forall i | 0 <= i < tasks.Length ::
        tasks[i] == if old(IsLive(tasks[i], pid) && tasks[i].state.Blocked?) then old(tasks[i]).(state := Ready)
                    else old(tasks[i])
    {
      ghost var ts, slot := tasks[..], FindPid(tasks[..], pid);
      NumberedPids(ts, kids);
      if slot >= 0 {
        StepKeepsGood(Abs(), Step.Unblock(slot));
        ProcsUpdate(ts, kids, slot, ts[slot].(state := Ready));
      }
      Unblock(pid);
      LinkageFrame(ts, tasks[..], kids);
    }

    /** The common end of block_current and sleep_current. */
    method Park(state: RunState, wakeTick: nat)
      requires |kids| == tasks.Length && currentIndex < tasks.Length
      requires !tasks[currentIndex].state.Dead? && !state.Dead?
      modifies this, tasks
      ensures kids == old(kids) && initPid == old(initPid)
      ensures Abs() == TaskModel.Park(old(Abs()), state, wakeTick)
      ensures forall i | 0 <= i < tasks.Length :: SameTies(old(tasks[i]), tasks[i])
    {
      ghost var k := Abs();
      tasks[currentIndex] := tasks[currentIndex].(wakeTick := wakeTick);
      tasks[currentIndex] := tasks[currentIndex].(state := state);
      assert Abs().procs == k.procs[k.cur := k.procs[k.cur].(state := state, wakeTick := wakeTick)];
      Reschedule();
    }

    method BlockCurrent()
      requires Valid() && CanStep(Abs(), Block)
      modifies this, tasks
      ensures Valid() && Abs() == Apply(old(Abs()), Block)
    {
      StepKeepsGood(Abs(), Block);
      Park(Blocked, tasks[currentIndex].wakeTick);
      LinkageFrame(old(tasks[..]), tasks[..], kids);
    }

    method SleepCurrent(ticks: nat)
      requires Valid() && CanStep(Abs(), Sleep(ticks))
      modifies this, tasks
      ensures Valid() && Abs() == Apply(old(Abs()), Sleep(ticks))
    {
      StepKeepsGood(Abs(), Sleep(ticks));
      Park(Sleeping, WakeAt(timerTicks, ticks));
      LinkageFrame(old(tasks[..]), tasks[..], kids);
    }

    method WakeSleepingTasks()
      requires |kids| == tasks.Length
      modifies tasks
      ensures Abs() == old(Abs()).(procs := WakeSleepers(old(Abs()).procs, timerTicks))
      ensures forall i | 0 <= i < tasks.Length :: SameTies(old(tasks[i]), tasks[i])
    {
      ghost var ts := tasks[..];
      var i := 0;
      while i < tasks.Length
        invariant 0 <= i <= tasks.Length
        invariant forall j | 0 <= j < i ::
          tasks[j] == if ts[j].state.Sleeping? && timerTicks >= ts[j].wakeTick then ts[j].(state := Ready) else ts[j]
        invariant forall j | i <= j < tasks.Length :: tasks[j] == ts[j]
      {
        if tasks[i].state.Sleeping? && timerTicks >= tasks[i].wakeTick {
          tasks[i] := tasks[i].(state := Ready);
        }
        i := i + 1;
      }
      assert Abs().procs == WakeSleepers(old(Abs()).procs, timerTicks);
    }

    /** The count goes up and the sleepers whose time has come wake. */
    method BeginTick()
      requires |kids| == tasks.Length
      modifies this`timerTicks, tasks
      ensures var m, now := old(Abs()), old(timerTicks) + 1;
              Abs() == m.(now := now, procs := WakeSleepers(m.procs, now))
      ensures forall i | 0 <= i < tasks.Length :: SameTies(old(tasks[i]), tasks[i])
    {
      timerTicks := timerTicks + 1;
      WakeSleepingTasks();
    }

    method TickBody()
      requires |kids| == tasks.Length && currentIndex < tasks.Length
      modifies this, tasks
      ensures kids == old(kids) && initPid == old(initPid)
      ensures Abs() == TickStep(old(Abs()))
      ensures forall i | 0 <= i < tasks.Length :: SameTies(old(tasks[i]), tasks[i])
    {
      BeginTick();
      CountTick();
    }

    method CountTick()
      requires |kids| == tasks.Length && currentIndex < tasks.Length
      modifies this, tasks
      ensures kids == old(kids) && initPid == old(initPid)
      ensures var k := old(Abs());
              Abs() == if k.tickCounter + 1 < TICKS_PER_SWITCH then k.(tickCounter := k.tickCounter + 1)
                       else TaskModel.Reschedule(k.(tickCounter := 0))
      ensures forall i | 0 <= i < tasks.Length :: SameTies(old(tasks[i]), tasks[i])
    {
      tickCounter := tickCounter + 1;
      if tickCounter < TICKS_PER_SWITCH { return; }
      tickCounter := 0;
      Reschedule();
    }

    /** The timer interrupt. */
    method Tick()
      requires Valid()
      modifies this, tasks
      ensures Valid() && Abs() == Apply(old(Abs()), Step.Tick)
    {
      StepKeepsGood(Abs(), Step.Tick);
      TickBody();
      LinkageFrame(old(tasks[..]), tasks[..], kids);
    }

    method Yield()
      requires Valid() && CanStep(Abs(), Step.Yield)
      modifies this, tasks
      ensures Valid() && Abs() == Apply(old(Abs()), Step.Yield)
    {
      StepKeepsGood(Abs(), Step.Yield);
      Reschedule();
      LinkageFrame(old(tasks[..]), tasks[..], kids);
    }

    // ----- creation

    /** The part of init_common_slot after a slot and a stack have been found. */
    method FillSlot(slot: nat, stack: nat, cr3: nat)
      requires |kids| == tasks.Length <= 255 && slot < tasks.Length && currentIndex < tasks.Length
      requires slot != currentIndex
      modifies this`kids, this`trace, tasks
      ensures var ts := old(tasks[..]);
              var child := NewTask(ts, slot, currentIndex, stack, cr3);
              && tasks[..] == ts[slot := child][currentIndex := ts[currentIndex].(firstChild := child.pid)]
              && kids == old(kids)[slot := []][currentIndex := [slot] + old(kids)[currentIndex]]
              && trace == old(trace) + [Spawned(child.pid, stack, cr3)]
    {
      var generation := tasks[slot].generation + 1;
      tasks[slot] := Task(stack, stack, Ready, MakePid(slot, generation), generation, tasks[currentIndex].pid,
                          NO_PID, NO_PID, 0, 0, cr3, NotStarted);
      AddChild(currentIndex, slot);
      kids := kids[slot := []][currentIndex := [slot] + kids[currentIndex]];
      trace := trace + [Spawned(tasks[slot].pid, stack, cr3)];
    }

    /** create and create_process; `stack` is what kmalloc returned, 0 for the null pointer. */
    method Create(stack: nat, cr3: nat) returns (slot: int)
      requires Valid() && CanStep(Abs(), Step.Create(stack, cr3))
      modifies this, tasks
      ensures Valid() && Abs() == Apply(old(Abs()), Step.Create(stack, cr3))
      ensures slot >= 0 <==> stack != 0 && exists j: nat :: Usable(old(Abs()), j)
      ensures slot >= 0 ==> Given(old(Abs()), Abs(), slot, stack, cr3)
      ensures slot < 0 ==> Abs() == old(Abs())
    {
      StepKeepsGood(Abs(), Step.Create(stack, cr3));
      ghost var i := CreateEffect(Abs(), stack, cr3);
      slot := CreateBody(stack, cr3);
    }

    method CreateBody(stack: nat, cr3: nat) returns (slot: int)
      requires Linkage(tasks[..], kids) && Family(Abs().procs) && Numbered(Abs().procs) && tasks.Length <= 255
      requires currentIndex < tasks.Length && initSlot < tasks.Length
      requires !tasks[currentIndex].state.Dead? && !tasks[initSlot].state.Dead?
      modifies this`kids, this`trace, tasks
      ensures Linkage(tasks[..], kids) && Abs() == CreateStep(old(Abs()), stack, cr3)
      ensures slot == if stack == 0 then -1 else FreeSlot(old(Abs()).procs, 0)
      ensures tasks[initSlot].pid == old(tasks[initSlot]).pid
    {
      slot := FindFreeSlot();
      if slot < 0 { return -1; }
      if stack == 0 { return -1; }
      CreateIn(slot, stack, cr3);
    }

    /** The slot found is filled. */
    method CreateIn(slot: nat, stack: nat, cr3: nat)
      requires Linkage(tasks[..], kids) && Family(Abs().procs) && Numbered(Abs().procs) && tasks.Length <= 255
      requires slot < tasks.Length && slot == FreeSlot(Abs().procs, 0) && currentIndex < tasks.Length && stack != 0
      requires tasks[slot].state.Dead? && !tasks[currentIndex].state.Dead?
      modifies this`kids, this`trace, tasks
      ensures Linkage(tasks[..], kids) && Abs() == CreateStep(old(Abs()), stack, cr3)
      ensures forall i | 0 <= i < tasks.Length && i != slot :: tasks[i].pid == old(tasks[i].pid)
    {
      CreateTable(tasks[..], kids, slot, currentIndex, stack, cr3);
      FillSlot(slot, stack, cr3);
    }

    // ----- wait_for_child

    /** The scan for a Zombie child; n is its place on the list, the list's length if none is. */
    method FindZombieChild(self: nat) returns (child: int, ghost n: nat)
      requires Linkage(tasks[..], kids) && Family(Abs().procs) && Numbered(Abs().procs)
      requires self < tasks.Length && !tasks[self].state.Dead?
      ensures n == FirstZombie(Abs().procs, kids[self])
      ensures child == if n < |kids[self]| then kids[self][n] else -1
    {
      ghost var ids, ps := kids[self], Abs().procs;
      assert ListOk(tasks[..], kids, self);
      ListFacts(tasks[..], kids, self);
      var childPid := tasks[self].firstChild;
      n := 0;
      assert ids[0..] == ids;
      while childPid != NO_PID
        invariant 0 <= n <= |ids| && Linked(tasks[..], childPid, ids[n..])
        invariant FirstZombie(ps, ids) == n + FirstZombie(ps, ids[n..])
        decreases |ids| - n
      {
        assert ids[n..][0] == ids[n] && ids[n..][1..] == ids[n + 1..];
        FindLive(tasks[..], kids, ids[n]);
        child := FindByPid(childPid);
        if child < 0 { break; }
        if tasks[child].state.Zombie? { return; }
        childPid := tasks[child].nextSibling;
        n := n + 1;
      }
      if n < |ids| { FindLive(tasks[..], kids, ids[n]); }
      child := -1;
    }

    /** The child leaves the list and its slot becomes free; the call returns to its caller. */
    method Collect(self: nat, child: nat, ghost ids: seq<nat>, ghost n: nat)
      requires Collectable(tasks[..], self, ids, n) && child == ids[n]
      modifies tasks
      ensures var mid := Unlink(old(tasks[..]), self, ids, n);
              var dead := mid[child := mid[child].(state := Dead, parentPid := NO_PID)];
              tasks[..] == dead[self := dead[self].(phase := Body)]
    {
      RemoveChild(self, tasks[child].pid, ids, n);
      tasks[child] := tasks[child].(state := Dead, parentPid := NO_PID);
      tasks[self] := tasks[self].(phase := Body);
    }

    method ReapChild(self: nat, child: nat, ghost n: nat)
      requires Linkage(tasks[..], kids) && Family(Abs().procs) && Numbered(Abs().procs)
      requires self < tasks.Length && self == currentIndex && !tasks[self].state.Dead?
      requires n < |kids[self]| && child == kids[self][n] && child < tasks.Length && tasks[child].state.Zombie?
      modifies this`kids, this`trace, tasks
      ensures |kids| == tasks.Length && Linkage(tasks[..], kids)
      ensures Abs() == TaskModel.ReapChild(old(Abs()), n)
      ensures initSlot < tasks.Length ==> tasks[initSlot].pid == old(tasks[initSlot]).pid
    {
      ghost var ids := kids[self];
      ReapReady(tasks[..], kids, self, n);
      ReapTable(tasks[..], kids, self, n);
      trace := trace + [Delivered(tasks[child].pid, tasks[child].exitCode, tasks[self].pid)];
      Collect(self, child, ids, n);
      kids := kids[self := Without(ids, n)];
    }

    /** One pass of wait_for_child over the child list. */
    method WaitForChild() returns (outcome: Outcome)
      requires Valid() && CanStep(Abs(), Wait)
      modifies this, tasks
      ensures Valid() && Abs() == Apply(old(Abs()), Wait)
      ensures var self := old(Abs()).procs[old(currentIndex)];
              && (outcome.NoChildren? <==> self.phase.Body? && self.kids == [])
              && (outcome.Reaped? <==> HasZombie(old(Abs())))
      ensures outcome.Reaped? ==> exists n :: Collected(old(Abs()), Abs(), n) && Reports(old(Abs()), n, outcome)
    {
      StepKeepsGood(Abs(), Wait);
      ghost var k := Abs();
      OutcomeExact(k);
      outcome := WaitBody();
    }

    method WaitBody() returns (outcome: Outcome)
      requires Linkage(tasks[..], kids) && Family(Abs().procs) && Numbered(Abs().procs)
      requires currentIndex < tasks.Length && initSlot < tasks.Length && !tasks[currentIndex].state.Dead?
      modifies this, tasks
      ensures Linkage(tasks[..], kids) && Abs() == WaitStep(old(Abs()))
      ensures initPid == old(initPid) && tasks[initSlot].pid == old(tasks[initSlot]).pid
      ensures outcome == WaitOutcome(old(Abs()))
    {
      ghost var ts := tasks[..];
      var self := currentIndex;
      assert ListOk(ts, kids, self);
      if tasks[self].phase.Body? && tasks[self].firstChild == NO_PID {
        NoFirstChild(ts, kids, self);
        return NoChildren;
      }
      var child, n := FindZombieChild(self);
      if child >= 0 {
        outcome := Reaped(tasks[child].pid, tasks[child].exitCode);
        ReapChild(self, child, n);
      } else {
        outcome := StillWaiting;
        BlockWaiting();
        LinkageFrame(ts, tasks[..], kids);
      }
    }

    /** block_current as called from the loop of wait_for_child. */
    method BlockWaiting()
      requires |kids| == tasks.Length && currentIndex < tasks.Length && !tasks[currentIndex].state.Dead?
      modifies this, tasks
      ensures kids == old(kids) && initPid == old(initPid)
      ensures Abs() == TaskModel.Reschedule(old(Abs()).(procs := old(Abs()).procs[old(currentIndex) :=
                         old(Abs()).procs[old(currentIndex)].(state := Blocked, phase := Waiting)]))
      ensures forall i | 0 <= i < tasks.Length :: SameTies(old(tasks[i]), tasks[i])
    {
      ghost var ts := tasks[..];
      tasks[currentIndex] := tasks[currentIndex].(state := Blocked, phase := Waiting);
      ProcsUpdate(ts, kids, currentIndex, tasks[currentIndex]);
      assert tasks[..] == ts[currentIndex := tasks[currentIndex]];
      Reschedule();
    }

    // ----- exit_current

    method AdoptChild(initTask: nat, child: nat)
      requires initTask < tasks.Length && child < tasks.Length && child != initTask
      requires FindPid(tasks[..], initPid) == initTask && tasks[initTask].pid == initPid
      modifies tasks
      ensures tasks[..] == AdoptOne(old(tasks[..]), initTask, child)
    {
      tasks[child] := tasks[child].(parentPid := initPid, nextSibling := NO_PID);
      AddChild(initTask, child);
      Unblock(initPid);
    }

    /** One turn of that loop: the first of the remaining children goes to init. */
    method AdoptNext(initTask: nat, childPid: Pid, ghost ids: seq<nat>) returns (found: bool, nextPid: Pid)
      requires Adoptable(tasks[..], initTask, initPid, ids) && Linked(tasks[..], childPid, ids) && ids != []
      modifies tasks
      ensures found && tasks[..] == AdoptOne(old(tasks[..]), initTask, ids[0])
      ensures Adoptable(tasks[..], initTask, initPid, ids[1..]) && Linked(tasks[..], nextPid, ids[1..])
    {
      ghost var ts := tasks[..];
      var child := FindByPid(childPid);
      found := child >= 0;
      if !found { return false, NO_PID; }
      nextPid := tasks[child].nextSibling;
      AdoptChild(initTask, child);
      AdoptableNext(ts, initTask, initPid, ids);
      LinkedFrame(ts, tasks[..], nextPid, ids[1..]);
    }

    /** The loop that hands the children of the exiting task to init. */
    method AdoptChildren(ghost ids: seq<nat>, ghost init: nat)
      requires currentIndex < tasks.Length && Linked(tasks[..], tasks[currentIndex].firstChild, ids)
      requires Adoptable(tasks[..], init, initPid, ids)
      modifies tasks
      ensures tasks[..] == Adopted(old(tasks[..]), currentIndex, init, ids)
    {
      ghost var ts, rest := tasks[..], ids;
      var initTask := FindByPid(initPid);
      var childPid := tasks[currentIndex].firstChild;
      while childPid != NO_PID
        invariant Adoptable(tasks[..], init, initPid, rest) && Linked(tasks[..], childPid, rest)
        invariant AdoptAll(tasks[..], init, rest) == AdoptAll(ts, init, ids)
        decreases |rest|
      {
        var found;
        found, childPid := AdoptNext(initTask, childPid, rest);
        if !found { break; }
        rest := rest[1..];
      }
      tasks[currentIndex] := tasks[currentIndex].(firstChild := NO_PID);
    }

    /** The last part of exit_current before it reschedules: Zombie or Dead. */
    method BuryCurrent()
      requires Linkage(tasks[..], kids) && Family(Abs().procs) && Numbered(Abs().procs)
      requires currentIndex < tasks.Length && !Gone(Abs().procs[currentIndex]) && kids[currentIndex] == []
      modifies tasks
      ensures Linkage(tasks[..], kids) && Abs() == old(Abs()).(procs := Bury(old(Abs()).procs, currentIndex))
      ensures forall i | 0 <= i < tasks.Length :: tasks[i].pid == old(tasks[i]).pid
    {
      ghost var ts := tasks[..];
      var self := currentIndex;
      ParentFound(ts, kids, self);
      var parent := FindByPid(tasks[self].parentPid);
      if parent >= 0 {
        tasks[self] := tasks[self].(state := Zombie);
        Unblock(tasks[self].parentPid);
        ZombieTable(ts, kids, self);
        assert tasks[..] == WakePid(ts[self := ts[self].(state := Zombie)], ts[self].parentPid);
      } else {
        tasks[self] := tasks[self].(state := Dead, parentPid := NO_PID);
        DeadTable(ts, kids, self);
        assert tasks[..] == ts[self := ts[self].(state := Dead, parentPid := NO_PID)];
      }
    }

    method DepartCurrent(exitCode: int)
      requires Valid() && CanStep(Abs(), Exit(exitCode))
      modifies this, tasks
      ensures Linkage(tasks[..], kids) && Abs() == Depart(old(Abs()), exitCode)
      ensures initPid == old(initPid) && initSlot == old(initSlot) && tasks[initSlot].pid == initPid
    {
      var self := currentIndex;
      ClearCurrent(exitCode);
      GiveUpChildren();
      BuryCurrent();
      trace := trace + [Exited(tasks[self].pid, exitCode)];
    }

    /** The stack and the address space pass to the deferred release. */
    method ClearCurrent(exitCode: int)
      requires Linkage(tasks[..], kids) && Family(Abs().procs) && Numbered(Abs().procs) && currentIndex < tasks.Length
      modifies this`pendingCleanup, tasks
      ensures Linkage(tasks[..], kids) && Family(Abs().procs) && Numbered(Abs().procs)
      ensures var self := old(Abs()).procs[currentIndex];
              var cleared := self.(stack := 0, space := 0, exitCode := exitCode);
              Abs() == old(Abs()).(procs := old(Abs()).procs[currentIndex := cleared],
                                   pending := Pending(self.stack, self.space, self.stack != 0 || self.space != 0))
      ensures forall i | 0 <= i < tasks.Length :: tasks[i].pid == old(tasks[i]).pid
    {
      ghost var ts := tasks[..];
      var self := currentIndex;
      ClearedTable(ts, kids, self, exitCode);
      pendingCleanup := Pending(tasks[self].stackBase, tasks[self].cr3,
                                tasks[self].stackBase != 0 || tasks[self].cr3 != 0);
      tasks[self] := tasks[self].(stackBase := 0, cr3 := 0, exitCode := exitCode);
      assert tasks[..] == ts[self := ts[self].(stackBase := 0, cr3 := 0, exitCode := exitCode)];
    }

    method GiveUpChildren()
      requires Linkage(tasks[..], kids) && Family(Abs().procs) && Numbered(Abs().procs)
      requires currentIndex < tasks.Length && initSlot < tasks.Length && currentIndex != initSlot
      requires !Gone(Abs().procs[currentIndex]) && !Gone(Abs().procs[initSlot]) && Abs().procs[initSlot].parent == -1
      requires initPid == tasks[initSlot].pid
      modifies this`kids, tasks
      ensures Linkage(tasks[..], kids) && Family(Abs().procs) && Numbered(Abs().procs)
      ensures Abs() == old(Abs()).(procs := Adopt(old(Abs()).procs, currentIndex, initSlot))
      ensures kids[currentIndex] == [] && !Gone(Abs().procs[currentIndex])
      ensures tasks[initSlot].pid == old(tasks[initSlot]).pid && tasks[currentIndex].pid == old(tasks[currentIndex]).pid
    {
      ghost var ts := tasks[..];
      var self := currentIndex;
      AdoptReady(ts, kids, self, initSlot);
      AdoptTable(ts, kids, self, initSlot);
      AdoptKeepsFamily(Procs(ts, kids), self, initSlot);
      if initPid != NO_PID && tasks[self].pid != initPid {
        AdoptChildren(kids[self], initSlot);
        kids := AdoptedKids(kids, self, initSlot);
      }
    }

    method ExitCurrent(exitCode: int)
      requires Valid() && CanStep(Abs(), Exit(exitCode))
      modifies this, tasks
      ensures Valid() && Abs() == Apply(old(Abs()), Exit(exitCode))
    {
      StepKeepsGood(Abs(), Exit(exitCode));
      DepartKeepsFamily(Abs(), exitCode);
      DepartCurrent(exitCode);
      RescheduleLinked();
    }

    /** Rescheduling leaves the lists alone. */
    method RescheduleLinked()
      requires Linkage(tasks[..], kids) && Family(Abs().procs) && currentIndex < tasks.Length && initSlot < tasks.Length
      modifies this, tasks
      ensures Linkage(tasks[..], kids) && Abs() == TaskModel.Reschedule(old(Abs()))
      ensures initPid == old(initPid) && tasks[initSlot].pid == old(tasks[initSlot]).pid
    {
      ghost var ts := tasks[..];
      Reschedule();
      LinkageFrame(ts, tasks[..], kids);
    }

    // ----- task_trampoline

    /** One micro-step of the trampoline's reap_pending_cleanup. */
    method Trampoline()
      requires Valid() && CanStep(Abs(), Step.Trampoline)
      modifies this, tasks
      ensures Valid() && Abs() == Apply(old(Abs()), Step.Trampoline)
    {
      StepKeepsGood(Abs(), Step.Trampoline);
      TrampolineBody();
      LinkageFrame(old(tasks[..]), tasks[..], kids);
    }

    method TrampolineBody()
      requires |kids| == tasks.Length && currentIndex < tasks.Length
      modifies this`pendingCleanup, this`trace, tasks
      ensures Abs() == TrampolineStep(old(Abs()))
      ensures forall i | 0 <= i < tasks.Length :: SameTies(old(tasks[i]), tasks[i])
    {
      ghost var ts := tasks[..];
      var self := currentIndex;
      match tasks[self].phase {
        case Entry =>
          tasks[self] := tasks[self].(phase := if pendingCleanup.active then Checked else Body);
        case Checked =>
          tasks[self] := tasks[self].(phase := Taken(pendingCleanup.stack, pendingCleanup.space));
          pendingCleanup := NO_PENDING;
        case Taken(stackBase, cr3) =>
          trace := trace + ReleaseEvents(stackBase, 0, onStack, loadedCr3);  // heap::kfree
          tasks[self] := tasks[self].(phase := Freed(cr3));
        case Freed(cr3) =>
          trace := trace + ReleaseEvents(0, cr3, onStack, loadedCr3);  // paging::destroy_address_space
          tasks[self] := tasks[self].(phase := Body);
        case _ =>
      }
      ProcsUpdate(ts, kids, self, tasks[self]);
      assert tasks[..] == ts[self := tasks[self]];
    }
  }
}

/** The PID-linked child lists of the task table, and the slot sequences they stand for. */
module TaskLinks {
  import opened Pids
  import opened TaskModel
  import opened TaskInvariants
  import opened TaskRuns

  /** struct Task of kernel/task.hpp. `rsp` is the kernel stack the saved stack pointer
      lies in and `phase` the point at which the saved context resumes. */
  datatype Task = Task(rsp: nat, stackBase: nat, state: RunState, pid: Pid, generation: nat,
                       parentPid: Pid, firstChild: Pid, nextSibling: Pid, exitCode: int,
                       wakeTick: nat, cr3: nat, phase: Phase)

  function ParentSlot(pid: Pid): int {
    if pid == NO_PID then -1 else SlotOf(pid)
  }

  function ToProc(t: Task, kids: seq<nat>): Proc {
    Proc(t.state, t.pid, t.generation, ParentSlot(t.parentPid), kids, t.exitCode, t.wakeTick,
         t.stackBase, t.cr3, t.rsp, t.phase)
  }

  function Procs(ts: seq<Task>, kids: seq<seq<nat>>): (ps: seq<Proc>)
    requires |kids| == |ts|
    ensures |ps| == |ts|
  {
    seq(|ts|, i requires 0 <= i < |ts| => ToProc(ts[i], kids[i]))
  }

  lemma {:induction false} ProcsUpdate(ts: seq<Task>, kids: seq<seq<nat>>, i: nat, t: Task)
    requires |kids| == |ts| && i < |ts|
    ensures Procs(ts[i := t], kids) == Procs(ts, kids)[i := ToProc(t, kids[i])]
  {
  }

  /** find_by_pid; -1 for the null pointer. */
  function FindPid(ts: seq<Task>, pid: Pid): (i: int)
    ensures -1 <= i < |ts|
  {
    var i := SlotOf(pid);
    if pid == NO_PID || i < 0 || i >= |ts| || ts[i].state.Dead? || ts[i].pid != pid then -1 else i
  }

  predicate IsLive(t: Task, pid: Pid) {
    !t.state.Dead? && t.pid == pid
  }

  predicate Reusable(t: Task) {
    t.state.Dead? && t.generation != PID_GENERATION_MAX
  }

  /** unblock. */
  function WakePid(ts: seq<Task>, pid: Pid): (us: seq<Task>)
    ensures |us| == |ts|
  {
    var i := FindPid(ts, pid);
    if i >= 0 && ts[i].state.Blocked? then ts[i := ts[i].(state := Ready)] else ts
  }

  /** Following next_sibling from `first` visits exactly the slots `ids`, in order. */
  predicate Linked(ts: seq<Task>, first: Pid, ids: seq<nat>)
    decreases |ids|
  {
    if ids == [] then first == NO_PID
    else
      && ids[0] < |ts| && !ts[ids[0]].state.Dead? && first == ts[ids[0]].pid
      && Linked(ts, ts[ids[0]].nextSibling, ids[1..])
  }

  predicate ListOk(ts: seq<Task>, kids: seq<seq<nat>>, i: int) {
    0 <= i < |ts| == |kids| && !ts[i].state.Dead? ==> Linked(ts, ts[i].firstChild, kids[i])
  }

  /** A parent PID is the current one of its slot. */
  predicate ParentPidOk(ts: seq<Task>, i: int) {
    0 <= i < |ts| && ts[i].parentPid != NO_PID ==>
      var p := SlotOf(ts[i].parentPid);
      0 <= p < |ts| && ts[p].pid == ts[i].parentPid
  }

  ghost predicate Linkage(ts: seq<Task>, kids: seq<seq<nat>>) {
    && |kids| == |ts|
    && (forall i {:trigger ListOk(ts, kids, i)} :: ListOk(ts, kids, i))
    && (forall i {:trigger ParentPidOk(ts, i)} :: ParentPidOk(ts, i))
  }

  predicate SameLink(t: Task, u: Task) {
    u.nextSibling == t.nextSibling && u.pid == t.pid && (u.state.Dead? <==> t.state.Dead?)
  }

  /** A list is untouched by changes elsewhere. */
  lemma {:induction false} LinkedFrame(ts: seq<Task>, us: seq<Task>, first: Pid, ids: seq<nat>)
    requires Linked(ts, first, ids) && |us| == |ts|
    requires forall c | c in ids :: c < |ts| && SameLink(ts[c], us[c])
    ensures Linked(us, first, ids)
    decreases |ids|
  {
    if ids != [] {
      assert ids[0] in ids;
      assert forall c | c in ids[1..] :: c in ids;
      LinkedFrame(ts, us, ts[ids[0]].nextSibling, ids[1..]);
    }
  }

  lemma {:induction false} LinkedLive(ts: seq<Task>, first: Pid, ids: seq<nat>, n: nat)
    requires Linked(ts, first, ids) && n < |ids|
    ensures ids[n] < |ts| && !ts[ids[n]].state.Dead?
    ensures Linked(ts, ts[ids[n]].nextSibling, ids[n + 1..])
    decreases n
  {
    if n > 0 {
      LinkedLive(ts, ts[ids[0]].nextSibling, ids[1..], n - 1);
      assert ids[1..][n - 1 + 1..] == ids[n + 1..];
    }
  }

  /** A live task is found under its own PID. */
  lemma {:induction false} FindLive(ts: seq<Task>, kids: seq<seq<nat>>, i: nat)
    requires |kids| == |ts| && Numbered(Procs(ts, kids)) && i < |ts| && !ts[i].state.Dead?
    ensures FindPid(ts, ts[i].pid) == i && SlotOf(ts[i].pid) == i && ts[i].pid != NO_PID
  {
    assert NumberedAt(Procs(ts, kids), i);
    UnpackPid(i, ts[i].generation);
  }

  /** Every live task carries the PID of its own slot, as in every state of the machine. */
  predicate OwnPids(ts: seq<Task>) {
    forall i | 0 <= i < |ts| && !ts[i].state.Dead? :: ts[i].pid != NO_PID && SlotOf(ts[i].pid) == i
  }

  predicate NoneLive(ts: seq<Task>, pid: Pid) {
    forall i | 0 <= i < |ts| :: !IsLive(ts[i], pid)
  }

  lemma {:induction false} NumberedPids(ts: seq<Task>, kids: seq<seq<nat>>)
    requires |kids| == |ts| && Numbered(Procs(ts, kids))
    ensures OwnPids(ts)
  {
    forall i | 0 <= i < |ts| && !ts[i].state.Dead? ensures ts[i].pid != NO_PID && SlotOf(ts[i].pid) == i {
      FindLive(ts, kids, i);
    }
  }

  /** A PID find_by_pid does not find belongs to no live task. */
  lemma {:induction false} NotFound(ts: seq<Task>, pid: Pid)
    requires OwnPids(ts)
    ensures FindPid(ts, pid) < 0 <==> NoneLive(ts, pid)
  {
    if FindPid(ts, pid) >= 0 { assert IsLive(ts[FindPid(ts, pid)], pid); }
  }

  predicate Slots(ids: seq<nat>, n: nat) {
    forall m | 0 <= m < |ids| :: ids[m] < n
  }

  /** Taking the n-th task out of a list. */
  function Unlink(ts: seq<Task>, owner: nat, ids: seq<nat>, n: nat): (us: seq<Task>)
    requires owner < |ts| && n < |ids| && Slots(ids, |ts|)
    ensures |us| == |ts|
  {
    if n == 0 then ts[owner := ts[owner].(firstChild := ts[ids[0]].nextSibling)]
    else ts[ids[n - 1] := ts[ids[n - 1]].(nextSibling := ts[ids[n]].nextSibling)]
  }

  lemma {:induction false} UnlinkTail(ts: seq<Task>, first: Pid, ids: seq<nat>, n: nat)
    requires Linked(ts, first, ids) && 0 < n < |ids| && NoDuplicates(ids)
    requires Slots(ids, |ts|)
    ensures var x := ids[n - 1];
            Linked(ts[x := ts[x].(nextSibling := ts[ids[n]].nextSibling)], first, Without(ids, n))
    decreases n
  {
    var x := ids[n - 1];
    var us := ts[x := ts[x].(nextSibling := ts[ids[n]].nextSibling)];
    var rest := ids[1..];
    assert Without(ids, n)[0] == ids[0] && Without(ids, n)[1..] == Without(rest, n - 1);
    if n == 1 {
      assert rest[0] == ids[1] && Without(rest, 0) == rest[1..];
      assert x !in rest[1..];
      LinkedFrame(ts, us, ts[ids[1]].nextSibling, rest[1..]);
    } else {
      UnlinkTail(ts, ts[ids[0]].nextSibling, rest, n - 1);
      assert rest[n - 2] == ids[n - 1] && rest[n - 1] == ids[n];
    }
  }

  /** Unlinking leaves exactly the other tasks on the list, in order. */
  lemma {:induction false} UnlinkLinked(ts: seq<Task>, owner: nat, ids: seq<nat>, n: nat)
    requires owner < |ts| && owner !in ids && Linked(ts, ts[owner].firstChild, ids) && NoDuplicates(ids)
    requires n < |ids| && Slots(ids, |ts|)
    ensures Linked(Unlink(ts, owner, ids, n), Unlink(ts, owner, ids, n)[owner].firstChild, Without(ids, n))
  {
    if n == 0 {
      assert Without(ids, 0) == ids[1..];
      LinkedFrame(ts, Unlink(ts, owner, ids, 0), ts[ids[0]].nextSibling, ids[1..]);
    } else {
      UnlinkTail(ts, ts[owner].firstChild, ids, n);
    }
  }

  /** Two tasks change nothing but their run state and saved context. */
  lemma {:induction false} SwitchTies(ts: seq<Task>, kids: seq<seq<nat>>, a: nat, b: nat, t: Task, u: Task)
    requires |kids| == |ts| && a < |ts| && b < |ts| && a != b && SameTies(ts[a], t) && SameTies(ts[b], u)
    ensures Procs(ts[a := t][b := u], kids) == Procs(ts, kids)[a := ToProc(t, kids[a])][b := ToProc(u, kids[b])]
    ensures forall i | 0 <= i < |ts| :: SameTies(ts[i], ts[a := t][b := u][i])
  {
  }

  // ----- the whole table

  /** What leaves every list and parent link alone. */
  predicate SameTies(t: Task, u: Task) {
    SameLink(t, u) && u.firstChild == t.firstChild && u.parentPid == t.parentPid
  }

  /** One list is untouched when its owner and its members keep their links. */
  lemma {:induction false} ListFrame(ts: seq<Task>, us: seq<Task>, kids: seq<seq<nat>>, i: int)
    requires |us| == |ts| == |kids| && ListOk(ts, kids, i)
    requires 0 <= i < |ts| && !ts[i].state.Dead? ==>
      us[i].firstChild == ts[i].firstChild && forall c | c in kids[i] :: c < |ts| && SameLink(ts[c], us[c])
    requires 0 <= i < |ts| ==> (us[i].state.Dead? <==> ts[i].state.Dead?)
    ensures ListOk(us, kids, i)
  {
    if 0 <= i < |ts| && !ts[i].state.Dead? {
      LinkedFrame(ts, us, ts[i].firstChild, kids[i]);
    }
  }

  lemma {:induction false} LinkageFrame(ts: seq<Task>, us: seq<Task>, kids: seq<seq<nat>>)
    requires Linkage(ts, kids) && |us| == |ts| && Family(Procs(ts, kids))
    requires forall i | 0 <= i < |ts| :: SameTies(ts[i], us[i])
    ensures Linkage(us, kids)
  {
    forall i ensures ListOk(us, kids, i) {
      assert ListOk(ts, kids, i);
      if 0 <= i < |ts| {
        forall c | c in kids[i] ensures c < |ts| && SameLink(ts[c], us[c]) {
          assert KidOk(Procs(ts, kids), i, c);
        }
      }
      ListFrame(ts, us, kids, i);
    }
    forall i ensures ParentPidOk(us, i) { assert ParentPidOk(ts, i); }
  }

  /** The slots on a list lie in the table, and no list has its owner or another's member. */
  lemma {:induction false} ListFacts(ts: seq<Task>, kids: seq<seq<nat>>, i: nat)
    requires |kids| == |ts| && i < |ts| && Family(Procs(ts, kids))
    ensures NoDuplicates(kids[i]) && Slots(kids[i], |ts|) && i !in kids[i]
    ensures forall c | c in kids[i] :: c < |ts| && !ts[c].state.Dead? && ParentSlot(ts[c].parentPid) == i
  {
    var ps := Procs(ts, kids);
    assert NodeOk(ps, i) && KidOk(ps, i, i);
    forall c | c in kids[i] ensures c < |ts| && !ts[c].state.Dead? && ParentSlot(ts[c].parentPid) == i {
      assert KidOk(ps, i, c);
    }
    assert forall m | 0 <= m < |kids[i]| :: kids[i][m] in kids[i];
  }

  /** A slot taken over by a new child at the front of its parent's list. */
  lemma {:induction false} CreateLinkage(ts: seq<Task>, kids: seq<seq<nat>>, i: nat, cur: nat, child: Task)
    requires Linkage(ts, kids) && Family(Procs(ts, kids)) && Numbered(Procs(ts, kids))
    requires i < |ts| && cur < |ts| && ts[i].state.Dead? && !ts[cur].state.Dead?
    requires !child.state.Dead? && child.pid != NO_PID && child.firstChild == NO_PID
    requires child.nextSibling == ts[cur].firstChild && child.parentPid == ts[cur].pid
    ensures var us := ts[i := child][cur := ts[cur].(firstChild := child.pid)];
            Linkage(us, kids[i := []][cur := [i] + kids[cur]])
  {
    var us := ts[i := child][cur := ts[cur].(firstChild := child.pid)];
    var kids' := kids[i := []][cur := [i] + kids[cur]];
    var ps := Procs(ts, kids);
    FindLive(ts, kids, cur);
    ListFacts(ts, kids, cur);
    assert ListOk(ts, kids, cur);
    forall j ensures ListOk(us, kids', j) {
      assert ListOk(ts, kids, j) && KidOk(ps, j, i) && KidOk(ps, j, cur);
      if j == cur {
        LinkedFrame(ts, us, ts[cur].firstChild, kids[cur]);
        assert ([i] + kids[cur])[1..] == kids[cur];
      } else if 0 <= j < |ts| && j != i && !ts[j].state.Dead? {
        ListFacts(ts, kids, j);
        LinkedFrame(ts, us, ts[j].firstChild, kids[j]);
      }
    }
    forall j ensures ParentPidOk(us, j) {
      assert ParentPidOk(ts, j) && NodeOk(ps, j) && ParentOk(ps, j);
    }
  }

  /** A reaped child is off its parent's list and its slot is free. */
  lemma {:induction false} ReapLinkage(ts: seq<Task>, kids: seq<seq<nat>>, cur: nat, n: nat)
    requires Linkage(ts, kids) && Family(Procs(ts, kids)) && Numbered(Procs(ts, kids))
    requires cur < |ts| && !ts[cur].state.Dead? && n < |kids[cur]| && Slots(kids[cur], |ts|)
    requires ts[kids[cur][n]].state.Zombie?
    ensures var c := kids[cur][n];
            var us := Unlink(ts, cur, kids[cur], n);
            Linkage(us[c := us[c].(state := Dead, parentPid := NO_PID)], kids[cur := Without(kids[cur], n)])
  {
    ListFacts(ts, kids, cur);
    assert ListOk(ts, kids, cur);
    ReapedList(ts, cur, kids[cur], n);
    var mid := Unlink(ts, cur, kids[cur], n);
    ReapOthers(ts, mid[kids[cur][n] := mid[kids[cur][n]].(state := Dead, parentPid := NO_PID)], kids, cur, n);
  }

  /** What reaping does to the parent's list, and to the tasks on it. */
  lemma {:induction false} ReapedList(ts: seq<Task>, cur: nat, ids: seq<nat>, n: nat)
    requires cur < |ts| && cur !in ids && Linked(ts, ts[cur].firstChild, ids) && NoDuplicates(ids)
    requires n < |ids| && Slots(ids, |ts|)
    ensures var mid := Unlink(ts, cur, ids, n);
            var us := mid[ids[n] := mid[ids[n]].(state := Dead, parentPid := NO_PID)];
            && Linked(us, us[cur].firstChild, Without(ids, n)) && us[cur] == ts[cur].(firstChild := us[cur].firstChild)
            && (forall x | 0 <= x < |ts| && x !in ids && x != cur :: us[x] == ts[x])
            && (forall x | x in ids :: us[x].firstChild == ts[x].firstChild && us[x].pid == ts[x].pid
                 && (us[x].parentPid == NO_PID || us[x].parentPid == ts[x].parentPid))
  {
    var c, mid := ids[n], Unlink(ts, cur, ids, n);
    var us := mid[c := mid[c].(state := Dead, parentPid := NO_PID)];
    UnlinkLinked(ts, cur, ids, n);
    assert c in ids && (n > 0 ==> ids[n - 1] in ids);
    assert c !in Without(ids, n) && Slots(Without(ids, n), |ts|);
    LinkedFrame(mid, us, mid[cur].firstChild, Without(ids, n));
  }

  lemma {:induction false} ReapOthers(ts: seq<Task>, us: seq<Task>, kids: seq<seq<nat>>, cur: nat, n: nat)
    requires Linkage(ts, kids) && Family(Procs(ts, kids)) && |us| == |ts| && cur < |ts|
    requires n < |kids[cur]| && Linked(us, us[cur].firstChild, Without(kids[cur], n))
    requires forall x | 0 <= x < |ts| && x !in kids[cur] && x != cur :: us[x] == ts[x]
    requires us[cur] == ts[cur].(firstChild := us[cur].firstChild)
    requires forall x | x in kids[cur] :: x < |ts| && !ts[x].state.Dead?
               && us[x].firstChild == ts[x].firstChild && us[x].pid == ts[x].pid
               && (us[x].parentPid == NO_PID || us[x].parentPid == ts[x].parentPid)
    ensures Linkage(us, kids[cur := Without(kids[cur], n)])
  {
    var kids' := kids[cur := Without(kids[cur], n)];
    forall j ensures ListOk(us, kids', j) {
      if 0 <= j < |ts| && j != cur && !us[j].state.Dead? {
        OtherListKept(ts, us, kids, cur, j);
      }
    }
    forall j ensures ParentPidOk(us, j) { assert ParentPidOk(ts, j); }
  }

  /** Changes confined to one list and its owner's head leave the other lists alone. */
  lemma {:induction false} OtherListKept(ts: seq<Task>, us: seq<Task>, kids: seq<seq<nat>>, owner: nat, j: nat)
    requires Linkage(ts, kids) && Family(Procs(ts, kids)) && |us| == |ts|
    requires owner < |ts| && j < |ts| && j != owner && !ts[j].state.Dead?
    requires forall x | 0 <= x < |ts| && x !in kids[owner] && x != owner :: SameLink(ts[x], us[x])
    requires SameLink(ts[owner], us[owner]) && us[j].firstChild == ts[j].firstChild
    ensures Linked(us, us[j].firstChild, kids[j])
  {
    assert ListOk(ts, kids, j);
    ListFacts(ts, kids, j);
    ListFacts(ts, kids, owner);
    assert forall x | x in kids[j] :: x !in kids[owner];
    LinkedFrame(ts, us, ts[j].firstChild, kids[j]);
  }

  // ----- adoption

  function AdoptOne(ts: seq<Task>, init: nat, c: nat): (us: seq<Task>)
    requires init < |ts| && c < |ts|
    ensures |us| == |ts|
  {
    var us := ts[c := ts[c].(parentPid := ts[init].pid, nextSibling := ts[init].firstChild)];
    us[init := us[init].(firstChild := us[c].pid,
                         state := if us[init].state.Blocked? then Ready else us[init].state)]
  }

  /** The tasks on the list can be found by their PIDs, and so can init, which is none of them. */
  ghost predicate Adoptable(ts: seq<Task>, init: nat, initPid: Pid, ids: seq<nat>) {
    && init < |ts| && Slots(ids, |ts|) && NoDuplicates(ids) && init !in ids
    && FindPid(ts, initPid) == init && ts[init].pid == initPid
    && forall m | 0 <= m < |ids| :: FindPid(ts, ts[ids[m]].pid) == ids[m] && ts[ids[m]].pid != NO_PID
  }

  lemma {:induction false} AdoptableNext(ts: seq<Task>, init: nat, initPid: Pid, ids: seq<nat>)
    requires Adoptable(ts, init, initPid, ids) && ids != []
    ensures Adoptable(AdoptOne(ts, init, ids[0]), init, initPid, ids[1..])
  {
    var us, rest := AdoptOne(ts, init, ids[0]), ids[1..];
    forall m | 0 <= m < |rest| ensures FindPid(us, us[rest[m]].pid) == rest[m] && us[rest[m]].pid != NO_PID {
      assert rest[m] == ids[m + 1];
    }
  }

  function AdoptAll(ts: seq<Task>, init: nat, ids: seq<nat>): (us: seq<Task>)
    requires init < |ts| && Slots(ids, |ts|)
    ensures |us| == |ts|
    decreases |ids|
  {
    if ids == [] then ts else AdoptAll(AdoptOne(ts, init, ids[0]), init, ids[1..])
  }

  predicate AdoptedTask(t: Task, u: Task, isKid: bool, isInit: bool, initPid: Pid) {
    if isKid then u == t.(parentPid := initPid, nextSibling := u.nextSibling)
    else if isInit then u == t.(firstChild := u.firstChild, state := if t.state.Blocked? then Ready else t.state)
    else u == t
  }

  lemma {:induction false} AdoptOneLinked(ts: seq<Task>, init: nat, c: nat, front: seq<nat>)
    requires init < |ts| && c < |ts| && c != init && !ts[c].state.Dead?
    requires Slots(front, |ts|) && init !in front && c !in front && Linked(ts, ts[init].firstChild, front)
    ensures var us := AdoptOne(ts, init, c); Linked(us, us[init].firstChild, [c] + front)
  {
    LinkedFrame(ts, AdoptOne(ts, init, c), ts[init].firstChild, front);
    assert ([c] + front)[1..] == front;
  }

  /** The adoption loop gives every child the new parent and touches nobody else. */
  lemma {:induction false} AdoptAllTasks(ts: seq<Task>, init: nat, ids: seq<nat>)
    requires init < |ts| && Slots(ids, |ts|) && NoDuplicates(ids) && init !in ids && ids != []
    ensures var us := AdoptAll(ts, init, ids);
            forall j | 0 <= j < |ts| :: AdoptedTask(ts[j], us[j], j in ids, j == init, ts[init].pid)
    decreases |ids|
  {
    var c, rest := ids[0], ids[1..];
    var mid := AdoptOne(ts, init, c);
    assert forall x | x in ids :: x == c || x in rest;
    if rest == [] {
      assert AdoptAll(mid, init, rest) == mid;
    } else {
      AdoptAllTasks(mid, init, rest);
      var us := AdoptAll(mid, init, rest);
      forall j | 0 <= j < |ts| ensures AdoptedTask(ts[j], us[j], j in ids, j == init, ts[init].pid) {
        assert AdoptedTask(mid[j], us[j], j in rest, j == init, mid[init].pid);
      }
    }
  }

  /** ... and puts the whole list, reversed, in front of init's. */
  lemma {:induction false} AdoptAllLinked(ts: seq<Task>, init: nat, ids: seq<nat>, front: seq<nat>)
    requires init < |ts| && Slots(ids, |ts|) && NoDuplicates(ids) && init !in ids
    requires Slots(front, |ts|) && init !in front && forall x | x in ids :: x !in front && !ts[x].state.Dead?
    requires Linked(ts, ts[init].firstChild, front)
    ensures var us := AdoptAll(ts, init, ids); Linked(us, us[init].firstChild, Reversed(ids) + front)
    decreases |ids|
  {
    if ids == [] {
      assert Reversed(ids) + front == front;
    } else {
      var c, rest := ids[0], ids[1..];
      var mid := AdoptOne(ts, init, c);
      AdoptOneLinked(ts, init, c, front);
      assert Reversed(ids) + front == Reversed(rest) + ([c] + front);
      AdoptAllLinked(mid, init, rest, [c] + front);
    }
  }

  /** The new entry of a slot, at the front of its parent's list. */
  function NewTask(ts: seq<Task>, slot: nat, cur: nat, stack: nat, cr3: nat): Task
    requires slot < |ts| <= 255 && cur < |ts|
  {
    var generation := ts[slot].generation + 1;
    Task(stack, stack, Ready, MakePid(slot, generation), generation, ts[cur].pid, NO_PID, ts[cur].firstChild,
         0, 0, cr3, NotStarted)
  }

  // ----- the abstract effect of the linked operations

  lemma {:induction false} CreateProcs(ts: seq<Task>, kids: seq<seq<nat>>, i: nat, cur: nat, child: Task)
    requires |kids| == |ts| && i < |ts| && cur < |ts| && i != cur
    ensures var us := ts[i := child][cur := ts[cur].(firstChild := child.pid)];
            var ps := Procs(ts, kids)[i := ToProc(child, [])];
            Procs(us, kids[i := []][cur := [i] + kids[cur]]) == ps[cur := ps[cur].(kids := [i] + ps[cur].kids)]
  {
  }

  lemma {:induction false} ReapProcs(ts: seq<Task>, kids: seq<seq<nat>>, cur: nat, n: nat)
    requires |kids| == |ts| && cur < |ts| && n < |kids[cur]| && Slots(kids[cur], |ts|) && cur != kids[cur][n]
    ensures var c := kids[cur][n];
            var mid := Unlink(ts, cur, kids[cur], n);
            var us := mid[c := mid[c].(state := Dead, parentPid := NO_PID)];
            var rest, ps := Without(kids[cur], n), Procs(ts, kids);
            Procs(us, kids[cur := rest]) == ps[cur := ps[cur].(kids := rest)][c := ps[c].(state := Dead, parent := -1)]
  {
  }

  /** After the loop and the clearing of the exiting task's own list. */
  function Adopted(ts: seq<Task>, self: nat, init: nat, ids: seq<nat>): (us: seq<Task>)
    requires self < |ts| && init < |ts| && Slots(ids, |ts|)
    ensures |us| == |ts|
  {
    var us := AdoptAll(ts, init, ids);
    us[self := us[self].(firstChild := NO_PID)]
  }

  function AdoptedKids(kids: seq<seq<nat>>, self: nat, init: nat): seq<seq<nat>>
    requires self < |kids| && init < |kids|
  {
    kids[init := Reversed(kids[self]) + kids[init]][self := []]
  }

  lemma {:induction false} AdoptProcs(ts: seq<Task>, kids: seq<seq<nat>>, self: nat, init: nat)
    requires Linkage(ts, kids) && Family(Procs(ts, kids)) && Numbered(Procs(ts, kids))
    requires self < |ts| && init < |ts| && self != init && !ts[init].state.Dead? && ts[init].parentPid == NO_PID
    requires Slots(kids[self], |ts|)
    ensures Procs(Adopted(ts, self, init, kids[self]), AdoptedKids(kids, self, init))
         == Adopt(Procs(ts, kids), self, init)
  {
    var ids, ps := kids[self], Procs(ts, kids);
    var us, kids' := Adopted(ts, self, init, ids), AdoptedKids(kids, self, init);
    FindLive(ts, kids, init);
    ListFacts(ts, kids, self);
    if ids == [] {
      assert Reversed(ids) + kids[init] == kids[init];
      assert Procs(us, kids') == ps;
    } else {
      assert init !in ids;
      AdoptAllTasks(ts, init, ids);
      AdoptShape(ps, self, init);
      var q := Adopt(ps, self, init);
      forall j: nat | j < |ts| ensures Procs(us, kids')[j] == q[j] {
        assert AdoptedAt(ps, q, self, init, j);
        assert AdoptedTask(ts[j], AdoptAll(ts, init, ids)[j], j in ids, j == init, ts[init].pid);
      }
    }
  }

  lemma {:induction false} AdoptLinkage(ts: seq<Task>, kids: seq<seq<nat>>, self: nat, init: nat)
    requires Linkage(ts, kids) && Family(Procs(ts, kids)) && Numbered(Procs(ts, kids))
    requires self < |ts| && init < |ts| && self != init && !ts[init].state.Dead? && ts[init].parentPid == NO_PID
    requires Slots(kids[self], |ts|)
    ensures Linkage(Adopted(ts, self, init, kids[self]), AdoptedKids(kids, self, init))
  {
    var ids := kids[self];
    var us, kids' := Adopted(ts, self, init, ids), AdoptedKids(kids, self, init);
    FindLive(ts, kids, init);
    ListFacts(ts, kids, self);
    AdoptInitList(ts, kids, self, init);
    if ids != [] {
      AdoptAllTasks(ts, init, ids);
    }
    forall j ensures ListOk(us, kids', j) {
      if 0 <= j < |ts| && j != self && j != init && !us[j].state.Dead? {
        AdoptOtherList(ts, us, kids, self, init, j);
      }
    }
    forall j ensures ParentPidOk(us, j) { assert ParentPidOk(ts, j); }
  }

  lemma {:induction false} AdoptInitList(ts: seq<Task>, kids: seq<seq<nat>>, self: nat, init: nat)
    requires Linkage(ts, kids) && Family(Procs(ts, kids))
    requires self < |ts| && init < |ts| && self != init && !ts[init].state.Dead? && ts[init].parentPid == NO_PID
    requires Slots(kids[self], |ts|)
    ensures var us := Adopted(ts, self, init, kids[self]);
            Linked(us, us[init].firstChild, Reversed(kids[self]) + kids[init])
  {
    var ids := kids[self];
    var mid, us := AdoptAll(ts, init, ids), Adopted(ts, self, init, ids);
    ListFacts(ts, kids, self);
    ListFacts(ts, kids, init);
    assert ListOk(ts, kids, init) && init !in ids;
    AdoptAllLinked(ts, init, ids, kids[init]);
    ReversedMembers(ids);
    LinkedFrame(mid, us, mid[init].firstChild, Reversed(ids) + kids[init]);
  }

  lemma {:induction false} AdoptOtherList(ts: seq<Task>, us: seq<Task>, kids: seq<seq<nat>>,
                                          self: nat, init: nat, j: nat)
    requires Linkage(ts, kids) && Family(Procs(ts, kids)) && |us| == |ts|
    requires self < |ts| && init < |ts| && j < |ts| && j != self && !ts[j].state.Dead?
    requires forall x | 0 <= x < |ts| && x !in kids[self] :: SameLink(ts[x], us[x])
    requires us[j].firstChild == ts[j].firstChild
    ensures Linked(us, us[j].firstChild, kids[j])
  {
    ListFacts(ts, kids, j);
    ListFacts(ts, kids, self);
    assert ListOk(ts, kids, j);
    assert forall x | x in kids[j] :: x !in kids[self];
    LinkedFrame(ts, us, ts[j].firstChild, kids[j]);
  }

  lemma {:induction false} NoFirstChild(ts: seq<Task>, kids: seq<seq<nat>>, i: nat)
    requires Linkage(ts, kids) && Numbered(Procs(ts, kids)) && i < |ts|
    requires !ts[i].state.Dead? && ts[i].firstChild == NO_PID
    ensures kids[i] == []
  {
    assert ListOk(ts, kids, i);
    if kids[i] != [] { FindLive(ts, kids, kids[i][0]); }
  }

  /** The PIDs met along a list are distinct and resolve to its slots. */
  lemma {:induction false} PidsOnList(ts: seq<Task>, kids: seq<seq<nat>>, i: nat, n: nat)
    requires |kids| == |ts| && Family(Procs(ts, kids)) && Numbered(Procs(ts, kids)) && i < |ts| && n < |kids[i]|
    ensures Slots(kids[i], |ts|) && ts[kids[i][n]].pid != NO_PID
    ensures forall m | 0 <= m < |kids[i]| :: FindPid(ts, ts[kids[i][m]].pid) == kids[i][m]
    ensures forall m | 0 <= m < n :: ts[kids[i][m]].pid != ts[kids[i][n]].pid
  {
    ListFacts(ts, kids, i);
    forall m | 0 <= m < |kids[i]| ensures FindPid(ts, ts[kids[i][m]].pid) == kids[i][m] {
      FindLive(ts, kids, kids[i][m]);
    }
    FindLive(ts, kids, kids[i][n]);
  }

  lemma {:induction false} PhaseLinkage(ts: seq<Task>, kids: seq<seq<nat>>, i: nat, phase: Phase)
    requires Linkage(ts, kids) && i < |ts|
    ensures Linkage(ts[i := ts[i].(phase := phase)], kids)
  {
    var us := ts[i := ts[i].(phase := phase)];
    forall j ensures ListOk(us, kids, j) {
      assert ListOk(ts, kids, j);
      if 0 <= j < |ts| && !ts[j].state.Dead? {
        forall c | c in kids[j] ensures c < |ts| && SameLink(ts[c], us[c]) {
          var m :| 0 <= m < |kids[j]| && kids[j][m] == c;
          LinkedLive(ts, ts[j].firstChild, kids[j], m);
        }
        LinkedFrame(ts, us, ts[j].firstChild, kids[j]);
      }
    }
    forall j ensures ParentPidOk(us, j) { assert ParentPidOk(ts, j); }
  }

  // ----- exit, on the table

  /** find_by_pid of the parent succeeds exactly when there is a live parent. */
  lemma {:induction false} ParentFound(ts: seq<Task>, kids: seq<seq<nat>>, i: nat)
    requires Linkage(ts, kids) && Family(Procs(ts, kids)) && Numbered(Procs(ts, kids)) && i < |ts|
    requires !ts[i].state.Dead?
    ensures FindPid(ts, ts[i].parentPid) == Procs(ts, kids)[i].parent
    ensures FindPid(ts, ts[i].parentPid) >= 0 <==> Live(Procs(ts, kids), Procs(ts, kids)[i].parent)
  {
    assert ParentPidOk(ts, i) && ParentOk(Procs(ts, kids), i);
  }

  lemma {:induction false} ZombieTable(ts: seq<Task>, kids: seq<seq<nat>>, self: nat)
    requires Linkage(ts, kids) && Family(Procs(ts, kids)) && Numbered(Procs(ts, kids)) && self < |ts|
    requires !Gone(Procs(ts, kids)[self]) && FindPid(ts, ts[self].parentPid) >= 0
    ensures var us := WakePid(ts[self := ts[self].(state := Zombie)], ts[self].parentPid);
            Linkage(us, kids) && Procs(us, kids) == Bury(Procs(ts, kids), self)
  {
    var ps := Procs(ts, kids);
    var mid := ts[self := ts[self].(state := Zombie)];
    ParentFound(ts, kids, self);
    assert KidOk(ps, ps[self].parent, self) && ParentOk(ps, self);
    ProcsUpdate(ts, kids, self, mid[self]);
    var p := ps[self].parent;
    var us := WakePid(mid, ts[self].parentPid);
    assert FindPid(mid, ts[self].parentPid) == p;
    ProcsUpdate(mid, kids, p, us[p]);
    assert us == mid[p := us[p]];
    LinkageFrame(ts, us, kids);
  }

  lemma {:induction false} DeadTable(ts: seq<Task>, kids: seq<seq<nat>>, self: nat)
    requires Linkage(ts, kids) && Family(Procs(ts, kids)) && Numbered(Procs(ts, kids)) && self < |ts|
    requires !Gone(Procs(ts, kids)[self]) && FindPid(ts, ts[self].parentPid) < 0
    ensures var us := ts[self := ts[self].(state := Dead, parentPid := NO_PID)];
            Linkage(us, kids) && Procs(us, kids) == Bury(Procs(ts, kids), self)
  {
    var ps := Procs(ts, kids);
    var us := ts[self := ts[self].(state := Dead, parentPid := NO_PID)];
    ParentFound(ts, kids, self);
    ProcsUpdate(ts, kids, self, us[self]);
    forall j ensures ListOk(us, kids, j) {
      assert ListOk(ts, kids, j);
      if 0 <= j < |ts| && !us[j].state.Dead? {
        ListFacts(ts, kids, j);
        assert KidOk(ps, j, self);
        LinkedFrame(ts, us, ts[j].firstChild, kids[j]);
      }
    }
    forall j ensures ParentPidOk(us, j) { assert ParentPidOk(ts, j); }
  }

  lemma {:induction false} ClearedTable(ts: seq<Task>, kids: seq<seq<nat>>, self: nat, code: int)
    requires Linkage(ts, kids) && Family(Procs(ts, kids)) && Numbered(Procs(ts, kids)) && self < |ts|
    ensures var us := ts[self := ts[self].(stackBase := 0, cr3 := 0, exitCode := code)];
            var ps := Procs(ts, kids);
            && Linkage(us, kids) && Family(Procs(us, kids)) && Numbered(Procs(us, kids))
            && Procs(us, kids) == ps[self := ps[self].(stack := 0, space := 0, exitCode := code)]
  {
    var us := ts[self := ts[self].(stackBase := 0, cr3 := 0, exitCode := code)];
    ProcsUpdate(ts, kids, self, us[self]);
    FamilyKept(Procs(ts, kids), Procs(us, kids));
    SameIdsNumbered(Procs(ts, kids), Procs(us, kids));
    LinkageFrame(ts, us, kids);
  }

  /** What the adoption loop needs. */
  lemma {:induction false} AdoptReady(ts: seq<Task>, kids: seq<seq<nat>>, self: nat, init: nat)
    requires Linkage(ts, kids) && Family(Procs(ts, kids)) && Numbered(Procs(ts, kids))
    requires self < |ts| && init < |ts| && self != init
    requires !Gone(Procs(ts, kids)[self]) && !Gone(Procs(ts, kids)[init]) && Procs(ts, kids)[init].parent == -1
    ensures Adoptable(ts, init, ts[init].pid, kids[self]) && Linked(ts, ts[self].firstChild, kids[self])
    ensures ts[init].pid != NO_PID && ts[self].pid != ts[init].pid
  {
    assert ListOk(ts, kids, self) && KidOk(Procs(ts, kids), self, init);
    ListFacts(ts, kids, self);
    FindLive(ts, kids, init);
    FindLive(ts, kids, self);
    forall m | 0 <= m < |kids[self]|
      ensures FindPid(ts, ts[kids[self][m]].pid) == kids[self][m] && ts[kids[self][m]].pid != NO_PID
    {
      FindLive(ts, kids, kids[self][m]);
    }
  }

  /** What it achieves. */
  lemma {:induction false} AdoptTable(ts: seq<Task>, kids: seq<seq<nat>>, self: nat, init: nat)
    requires Linkage(ts, kids) && Family(Procs(ts, kids)) && Numbered(Procs(ts, kids))
    requires self < |ts| && init < |ts| && self != init && Slots(kids[self], |ts|)
    requires !Gone(Procs(ts, kids)[self]) && !Gone(Procs(ts, kids)[init]) && Procs(ts, kids)[init].parent == -1
    ensures var us, kids' := Adopted(ts, self, init, kids[self]), AdoptedKids(kids, self, init);
            && Linkage(us, kids') && Procs(us, kids') == Adopt(Procs(ts, kids), self, init)
            && Numbered(Procs(us, kids')) && us[init].pid == ts[init].pid && us[self].pid == ts[self].pid
  {
    var ps := Procs(ts, kids);
    assert ParentPidOk(ts, init);
    AdoptProcs(ts, kids, self, init);
    AdoptLinkage(ts, kids, self, init);
    AdoptIds(ps, self, init);
    AdoptOthers(ps, self, init);
    SameIdsNumbered(ps, Adopt(ps, self, init));
  }

  /** A created task, on the table and in the model. */
  lemma {:induction false} CreateTable(ts: seq<Task>, kids: seq<seq<nat>>, slot: nat, cur: nat, stack: nat, cr3: nat)
    requires Linkage(ts, kids) && Family(Procs(ts, kids)) && Numbered(Procs(ts, kids))
    requires slot < |ts| <= 255 && cur < |ts| && ts[slot].state.Dead? && !ts[cur].state.Dead?
    ensures var child := NewTask(ts, slot, cur, stack, cr3);
            var us := ts[slot := child][cur := ts[cur].(firstChild := child.pid)];
            var kids' := kids[slot := []][cur := [slot] + kids[cur]];
            var ps := Procs(ts, kids)[slot := NewProc(slot, ts[slot].generation + 1, cur, stack, cr3)];
            Linkage(us, kids') && Procs(us, kids') == ps[cur := ps[cur].(kids := [slot] + ps[cur].kids)]
  {
    var child := NewTask(ts, slot, cur, stack, cr3);
    FindLive(ts, kids, cur);
    UnpackPid(slot, child.generation);
    CreateLinkage(ts, kids, slot, cur, child);
    CreateProcs(ts, kids, slot, cur, child);
  }

  /** The child can be found on its parent's list by its PID, and is the first with it. */
  ghost predicate Collectable(ts: seq<Task>, self: nat, ids: seq<nat>, n: nat) {
    && self < |ts| && self !in ids && Slots(ids, |ts|) && NoDuplicates(ids) && n < |ids|
    && Linked(ts, ts[self].firstChild, ids) && ts[ids[n]].pid != NO_PID
    && (forall m | 0 <= m < |ids| :: FindPid(ts, ts[ids[m]].pid) == ids[m])
    && forall m | 0 <= m < n :: ts[ids[m]].pid != ts[ids[n]].pid
  }

  lemma {:induction false} ReapReady(ts: seq<Task>, kids: seq<seq<nat>>, self: nat, n: nat)
    requires Linkage(ts, kids) && Family(Procs(ts, kids)) && Numbered(Procs(ts, kids))
    requires self < |ts| && !ts[self].state.Dead? && n < |kids[self]|
    ensures Collectable(ts, self, kids[self], n)
  {
    assert ListOk(ts, kids, self);
    ListFacts(ts, kids, self);
    PidsOnList(ts, kids, self, n);
  }

  /** A reaped child, on the table and in the model. */
  lemma {:induction false} ReapTable(ts: seq<Task>, kids: seq<seq<nat>>, cur: nat, n: nat)
    requires Linkage(ts, kids) && Family(Procs(ts, kids)) && Numbered(Procs(ts, kids))
    requires cur < |ts| && !ts[cur].state.Dead? && n < |kids[cur]| && Slots(kids[cur], |ts|)
    requires ts[kids[cur][n]].state.Zombie? && cur != kids[cur][n]
    ensures var c := kids[cur][n];
            var mid := Unlink(ts, cur, kids[cur], n);
            var dead := mid[c := mid[c].(state := Dead, parentPid := NO_PID)];
            var us, kids' := dead[cur := dead[cur].(phase := Body)], kids[cur := Without(kids[cur], n)];
            var ps := Procs(ts, kids)[cur := Procs(ts, kids)[cur].(kids := Without(kids[cur], n), phase := Body)];
            Linkage(us, kids') && Procs(us, kids') == ps[c := ps[c].(state := Dead, parent := -1)]
  {
    var c := kids[cur][n];
    var mid := Unlink(ts, cur, kids[cur], n);
    var dead := mid[c := mid[c].(state := Dead, parentPid := NO_PID)];
    var kids' := kids[cur := Without(kids[cur], n)];
    ReapLinkage(ts, kids, cur, n);
    ReapProcs(ts, kids, cur, n);
    ProcsUpdate(dead, kids', cur, dead[cur].(phase := Body));
    PhaseLinkage(dead, kids', cur, Body);
  }

  const UNUSED := Task(0, 0, Dead, NO_PID, 0, NO_PID, NO_PID, NO_PID, 0, 0, 0, NotStarted)

  /** The table task::init leaves. */
  function BootTasks(n: nat, idleStack: nat, initStack: nat): (ts: seq<Task>)
    requires 3 <= n <= 255
    ensures |ts| == n
  {
    var idle := Task(idleStack, idleStack, Ready, MakePid(1, 1), 1, NO_PID, NO_PID, NO_PID, 0, 0, 0, NotStarted);
    var init := Task(initStack, initStack, Ready, MakePid(2, 1), 1, NO_PID, NO_PID, NO_PID, 0, 0, 0, NotStarted);
    [UNUSED.(state := Running, pid := MakePid(0, 1), generation := 1, phase := Body), idle, init] +
    seq(n - 3, _ => UNUSED)
  }

  lemma {:induction false} BootTable(ts: seq<Task>, kids: seq<seq<nat>>, idleStack: nat, initStack: nat, cr3: nat)
    requires 3 <= |ts| <= 255 && |kids| == |ts| && ts == BootTasks(|ts|, idleStack, initStack)
    requires forall i | 0 <= i < |kids| :: kids[i] == []
    ensures Linkage(ts, kids) && Procs(ts, kids) == Boot(|ts|, idleStack, initStack, cr3).procs
  {
    forall i ensures ListOk(ts, kids, i) && ParentPidOk(ts, i) {}
  }
}

/** The scheduler of src/arch/x86/task/task.c as a state machine over the run queue:
    what a switch does to it, what every run keeps, and how long a task waits. */
module RunQueue {

  const WAIT_SLEEP := 1
  const WAIT_PID := 2

  /** A task's scheduling state; the idle task, at the head of the queue, has pid 0. */
  datatype TaskState = TaskState(pid: int, running: bool, stop: bool, wait: bool, busy: bool, waitType: int, deadline: int)

  predicate Runnable(t: TaskState) { !t.wait && !t.busy }

  /** queue[cur] is the current task; entry says that no switch has happened yet. */
  datatype Sched = Sched(queue: seq<TaskState>, cur: int, now: int, lastPid: int, entry: bool)

  ghost predicate PidsIncrease(q: seq<TaskState>, lastPid: int) {
    && (forall i :: 0 <= i < |q| ==> q[i].pid <= lastPid)
    && forall i, j :: 0 <= i < j < |q| ==> q[i].pid < q[j].pid
  }

  /** What holds when a switch begins: the current task may be stopped. */
  ghost predicate Shape(s: Sched) {
    && 0 <= s.cur < |s.queue|
    && s.queue[0].pid == 0 && !s.queue[0].wait && !s.queue[0].busy && !s.queue[0].stop
    && PidsIncrease(s.queue, s.lastPid)
    && (s.entry ==> s.cur == 0)
  }

  /** Between switches: idle at the head and never blocked, no stopped task, only the
      current task marked running, and that one neither waiting nor busy. */
  ghost predicate Inv(s: Sched) {
    && Shape(s) && !s.queue[s.cur].wait && !s.queue[s.cur].busy
    && (forall i :: 0 <= i < |s.queue| ==> !s.queue[i].stop)
    && (forall i :: 0 <= i < |s.queue| && s.queue[i].running ==> i == s.cur)
  }

  ghost predicate OnlyCurStops(s: Sched) {
    && (forall i :: 0 <= i < |s.queue| && s.queue[i].stop ==> i == s.cur && s.cur != 0)
    && (forall i :: 0 <= i < |s.queue| && s.queue[i].running ==> i == s.cur)
  }

  // ---- the sweep, lines 289-371

  /** A task with this pid is found when the sweep visits i: stopped ones before i are gone. */
  ghost predicate Listed(q: seq<TaskState>, i: int, pid: int) {
    exists j :: 0 <= j < |q| && q[j].pid == pid && !(q[j].stop && j < i)
  }

  ghost predicate Wakes(q: seq<TaskState>, i: int, now: int)
    requires 0 <= i < |q|
  {
    var t := q[i];
    t.wait && ((t.waitType == WAIT_SLEEP && now >= t.deadline) || (t.waitType == WAIT_PID && !Listed(q, i, t.deadline)))
  }

  ghost function Visit(q: seq<TaskState>, i: int, now: int): TaskState
    requires 0 <= i < |q|
  {
    if i == 0 || !Wakes(q, i, now) then q[i]
    else if q[i].waitType == WAIT_PID then q[i].(wait := false, deadline := 0)
    else q[i].(wait := false)
  }

  ghost function SweepFrom(q: seq<TaskState>, i: nat, now: int): seq<TaskState>
    requires i <= |q|
    decreases |q| - i
  {
    if i == |q| then [] else (if i > 0 && q[i].stop then [] else [Visit(q, i, now)]) + SweepFrom(q, i + 1, now)
  }

  /** With one stopped task at most, the sweep drops it and visits the rest. */
  lemma {:induction false} SweepIs(q: seq<TaskState>, i: nat, now: int, c: int)
    requires i <= |q| && 0 <= c < |q| && forall j :: 0 <= j < |q| && q[j].stop ==> j == c && c != 0
    ensures var r := SweepFrom(q, i, now);
      && |r| == |q| - i - (if i <= c && q[c].stop then 1 else 0)
      && forall k :: 0 <= k < |r| ==> r[k] == (if i + k >= c && i <= c && q[c].stop then Visit(q, i + k + 1, now) else Visit(q, i + k, now))
    decreases |q| - i
  {
    hide Visit;
    if i == |q| {
    } else {
      SweepIs(q, i + 1, now, c);
      var head := if i > 0 && q[i].stop then [] else [Visit(q, i, now)];
      assert SweepFrom(q, i, now) == head + SweepFrom(q, i + 1, now);
      hide SweepFrom;
    }
  }

  // ---- the choice, lines 377-391

  function After(q: seq<TaskState>, p: int): int { if p + 1 < |q| then p + 1 else 0 }

  /** The first runnable entry in cyclic order from p on. */
  function Pick(q: seq<TaskState>, p: int, n: nat): int
    decreases n
  {
    if n == 0 || !(0 <= p < |q|) then 0
    else if Runnable(q[p]) then p
    else Pick(q, After(q, p), n - 1)
  }

  /** How far e lies behind p in cyclic order; 0 for p itself. */
  function Ahead(q: seq<TaskState>, p: int, e: int): int { if e >= p then e - p else e + |q| - p }

  /** The pick is runnable and nothing before it, counting cyclically from p, is. */
  lemma {:induction false} PickIsFirst(q: seq<TaskState>, p: int, n: nat, e: int)
    requires 0 <= p < |q| && 0 <= e < |q| && Runnable(q[e]) && Ahead(q, p, e) < n
    ensures var r := Pick(q, p, n); 0 <= r < |q| && Runnable(q[r]) && Ahead(q, p, r) <= Ahead(q, p, e)
    decreases n
  {
    if Runnable(q[p]) {
    } else {
      PickIsFirst(q, After(q, p), n - 1, e);
    }
  }

  // ---- a switch

  /** Entry from which the choice starts, in the swept queue. */
  function Start(s: Sched, swept: seq<TaskState>): int
    requires 0 <= s.cur < |s.queue|
  {
    var p := if s.queue[s.cur].stop then s.cur else s.cur + 1;
    if p < |swept| then p else 0
  }

  /** The queue when the choice is made: swept, and the current task no longer running. */
  ghost function Rest(s: Sched): seq<TaskState>
    requires 0 <= s.cur < |s.queue|
  {
    var swept := SweepFrom(s.queue, 0, s.now);
    if s.queue[s.cur].stop || s.cur >= |swept| then swept else swept[s.cur := swept[s.cur].(running := false)]
  }

  /** x86_task_switch. */
  ghost function Switch(s: Sched): Sched
    requires 0 <= s.cur < |s.queue|
  {
    if s.entry then s.(entry := false)
    else
      var rest := Rest(s);
      var p := Pick(rest, Start(s, rest), |rest|);
      if 0 <= p < |rest| then s.(queue := rest[p := rest[p].(running := true)], cur := p) else s
  }

  /** The index, before the switch, of entry k of the queue it leaves. */
  function Origin(s: Sched, k: int): int
    requires 0 <= s.cur < |s.queue|
  {
    if s.queue[s.cur].stop && k >= s.cur then k + 1 else k
  }

  /** Entry by entry: what the choice is made from. */
  lemma RestIs(s: Sched)
    requires Shape(s) && OnlyCurStops(s)
    ensures var q, r := s.queue, Rest(s);
      && |r| == |q| - (if q[s.cur].stop then 1 else 0)
      && forall k :: 0 <= k < |r| ==> r[k] == Visit(q, Origin(s, k), s.now).(running := false)
  {
    SweepIs(s.queue, 0, s.now, s.cur);
    hide SweepFrom, Listed, Wakes, PidsIncrease;
    var swept := SweepFrom(s.queue, 0, s.now);
    forall k | 0 <= k < |swept|
      ensures Rest(s)[k] == Visit(s.queue, Origin(s, k), s.now).(running := false)
    {
    }
  }

  lemma RestKeeps(s: Sched)
    requires Shape(s) && OnlyCurStops(s)
    ensures var r := Rest(s);
      && |r| > 0 && r[0].pid == 0 && Runnable(r[0]) && PidsIncrease(r, s.lastPid)
      && forall k :: 0 <= k < |r| ==> !r[k].stop && !r[k].running
  {
    RestIs(s);
    hide Rest, SweepFrom, Listed, Wakes;
    var r := Rest(s);
    forall k | 0 <= k < |r|
      ensures r[k].pid == s.queue[Origin(s, k)].pid && r[k].stop == s.queue[Origin(s, k)].stop && !r[k].running
    {
    }
    assert r[0] == s.queue[0].(running := false);
  }

  lemma PidsSame(r: seq<TaskState>, p: int, lastPid: int)
    requires 0 <= p < |r| && PidsIncrease(r, lastPid)
    ensures PidsIncrease(r[p := r[p].(running := true)], lastPid)
  {
  }

  /** Every switch restores the invariant; idle can always be chosen, so the loop ends on
      a task that can run. */
  lemma SwitchKeeps(s: Sched)
    requires Shape(s) && OnlyCurStops(s)
    ensures Inv(Switch(s)) && Switch(s).now == s.now && Switch(s).lastPid == s.lastPid
    ensures !s.entry ==> var r, p := Rest(s), Switch(s).cur;
      && 0 <= p < |r| && !r[p].wait && !r[p].busy && Switch(s).queue == r[p := r[p].(running := true)]
      && forall e :: 0 <= e < |r| && !r[e].wait && !r[e].busy ==> Ahead(r, Start(s, r), p) <= Ahead(r, Start(s, r), e)
  {
    if !s.entry {
      RestKeeps(s);
      hide Rest, PidsIncrease, Pick;
      var r := Rest(s);
      var p := Pick(r, Start(s, r), |r|);
      forall e | 0 <= e < |r| && Runnable(r[e])
        ensures 0 <= p < |r| && Runnable(r[p]) && Ahead(r, Start(s, r), p) <= Ahead(r, Start(s, r), e)
      {
        PickIsFirst(r, Start(s, r), |r|, e);
      }
      assert Runnable(r[0]) && 0 <= p < |r|;
      PidsSame(r, p, s.lastPid);
    }
  }

  // ---- runs

  /** What happens to the queue: the clock advances, the timer switches, the current task
      sleeps, waits for a pid, exits or blocks on a read, a read is completed for task i, a
      task is enabled (its wait type is what the memory held), or one is signalled, with or
      without a handler. */
  datatype Op = Advance(d: nat) | Tick | Sleep(ticks: nat) | WaitFor(pid: int) | Exit | Block
              | Unblock(i: nat) | Enable(waitType: int) | Signal(i: nat, handled: bool)

  predicate Switches(op: Op) { op.Tick? || op.Sleep? || op.WaitFor? || op.Exit? || op.Block? }

  /** The idle task makes no system calls and opens no files; pid 1 may not exit. */
  predicate Enabled(s: Sched, op: Op) {
    match op
    case Sleep(_) | WaitFor(_) | Block => 0 < s.cur < |s.queue|
    case Exit => 0 < s.cur < |s.queue| && s.queue[s.cur].pid != 1
    case Unblock(i) => 0 < i < |s.queue|
    case Signal(i, _) => 0 < i < |s.queue|
    case _ => true
  }

  /** The current task's fields as the system call leaves them for the switch. */
  function Mark(t: TaskState, op: Op, now: int): TaskState {
    match op
    case Sleep(ticks) => t.(wait := true, waitType := WAIT_SLEEP, deadline := now + ticks)
    case WaitFor(pid) => t.(running := false, stop := false, wait := true, busy := false, waitType := WAIT_PID, deadline := pid)
    case Exit => t.(stop := true)
    case Block => t.(busy := true)
    case _ => t
  }

  function Marked(s: Sched, op: Op): Sched
    requires 0 <= s.cur < |s.queue|
  {
    s.(queue := s.queue[s.cur := Mark(s.queue[s.cur], op, s.now)])
  }

  ghost function Step(s: Sched, op: Op): Sched {
    if !(0 <= s.cur < |s.queue| && Enabled(s, op)) then s
    else if Switches(op) then Switch(Marked(s, op))
    else match op
      case Advance(d) => s.(now := s.now + d)
      case Unblock(i) => s.(queue := s.queue[i := s.queue[i].(busy := false)])
      case Signal(i, handled) => if handled then s.(queue := s.queue[i := s.queue[i].(wait := false)]) else s
      case Enable(w) => s.(queue := s.queue + [TaskState(s.lastPid + 1, false, false, false, false, w, 0)], lastPid := s.lastPid + 1)
      case _ => s
  }

  lemma MarkedShape(s: Sched, op: Op)
    requires Inv(s) && Switches(op) && (op.Tick? || 0 < s.cur)
    ensures Shape(Marked(s, op)) && OnlyCurStops(Marked(s, op))
  {
  }

  lemma CurListed(s: Sched)
    requires Inv(s)
    ensures 0 <= s.cur < |s.queue|
  {
  }

  lemma SwitchLeavesEntry(s: Sched)
    requires 0 <= s.cur < |s.queue|
    ensures !s.entry ==> !Switch(s).entry
  {
    hide Rest, Pick;
  }

  lemma OtherStepKeeps(s: Sched, op: Op)
    requires Inv(s) && Enabled(s, op) && !Switches(op)
    ensures Inv(Step(s, op)) && s.now <= Step(s, op).now && Step(s, op).entry == s.entry
  {
  }

  lemma StepKeeps(s: Sched, op: Op)
    requires Inv(s) && Enabled(s, op)
    ensures Inv(Step(s, op)) && s.now <= Step(s, op).now && (!s.entry ==> !Step(s, op).entry)
  {
    if Switches(op) {
      hide Inv, Shape, OnlyCurStops, Rest, Switch;
      CurListed(s);
      MarkedShape(s, op);
      SwitchKeeps(Marked(s, op));
      SwitchLeavesEntry(Marked(s, op));
    } else {
      OtherStepKeeps(s, op);
    }
  }

  ghost predicate Legal(s: Sched, ops: seq<Op>)
    decreases |ops|
  {
    ops == [] || (0 <= s.cur < |s.queue| && Enabled(s, ops[0]) && Legal(Step(s, ops[0]), ops[1..]))
  }

  ghost function Run(s: Sched, ops: seq<Op>): Sched
    requires Legal(s, ops)
    decreases |ops|
  {
    if ops == [] then s else Run(Step(s, ops[0]), ops[1..])
  }

  /** The invariant holds over every run. */
  lemma {:induction false} RunKeeps(s: Sched, ops: seq<Op>)
    requires Inv(s) && Legal(s, ops)
    ensures Inv(Run(s, ops))
    decreases |ops|
  {
    if ops == [] {
    } else {
      hide Inv, Step;
      StepKeeps(s, ops[0]);
      RunKeeps(Step(s, ops[0]), ops[1..]);
    }
  }

  // ---- pids

  ghost predicate HasPid(q: seq<TaskState>, pid: int) {
    exists i :: 0 <= i < |q| && q[i].pid == pid
  }

  /** A switch keeps every pid but that of a task that exits, in order. */
  lemma SwitchPids(s: Sched)
    requires Shape(s) && OnlyCurStops(s) && !s.entry
    ensures var q' := Switch(s).queue;
      && |q'| == |s.queue| - (if s.queue[s.cur].stop then 1 else 0)
      && forall k :: 0 <= k < |q'| ==> q'[k].pid == s.queue[Origin(s, k)].pid
  {
    RestIs(s);
    SwitchKeeps(s);
    hide Rest, Pick, Listed, Wakes;
  }

  lemma StepPids(s: Sched, op: Op, pid: int)
    requires Inv(s) && Enabled(s, op) && pid <= s.lastPid && !HasPid(s.queue, pid)
    ensures !HasPid(Step(s, op).queue, pid) && s.lastPid <= Step(s, op).lastPid
  {
    hide Rest, Pick;
    if Switches(op) {
      var m := Marked(s, op);
      MarkedShape(s, op);
      SwitchKeeps(m);
      assert forall i :: 0 <= i < |s.queue| ==> m.queue[i].pid == s.queue[i].pid;
      if !s.entry {
        SwitchPids(m);
        hide Switch, Mark;
      }
    }
  }

  /** task_by_pid is unambiguous. */
  lemma SamePid(q: seq<TaskState>, lastPid: int, a: int, b: int)
    requires PidsIncrease(q, lastPid) && 0 <= a < |q| && 0 <= b < |q| && q[a].pid == q[b].pid
    ensures a == b
  {
  }

  /** A pid that is not listed, once given out, never comes back. */
  lemma {:induction false} NeverReused(s: Sched, ops: seq<Op>, pid: int)
    requires Inv(s) && Legal(s, ops) && pid <= s.lastPid && !HasPid(s.queue, pid)
    ensures !HasPid(Run(s, ops).queue, pid)
    decreases |ops|
  {
    if ops == [] {
    } else {
      hide Inv, Step, HasPid;
      StepKeeps(s, ops[0]);
      StepPids(s, ops[0], pid);
      NeverReused(Step(s, ops[0]), ops[1..], pid);
    }
  }

  // ---- waiting for a pid

  predicate WaitsFor(t: TaskState, pid: int) { t.wait && t.waitType == WAIT_PID && t.deadline == pid }

  /** A task waiting for a pid stays waiting over a switch exactly when the pid is listed at
      its visit: it is that of a task that does not exit, or of one behind it that does. */
  lemma WaitExact(s: Sched, k: int, pid: int)
    requires Shape(s) && OnlyCurStops(s) && !s.entry
    requires 0 <= k < |Rest(s)| && 0 < Origin(s, k) < |s.queue| && WaitsFor(s.queue[Origin(s, k)], pid)
    ensures k < |Switch(s).queue|
    ensures Switch(s).queue[k].wait <==>
      exists j :: 0 <= j < |s.queue| && s.queue[j].pid == pid && (s.queue[j].stop ==> Origin(s, k) <= j)
    ensures Switch(s).queue[k].wait ==> WaitsFor(Switch(s).queue[k], pid)
  {
    RestIs(s);
    SwitchKeeps(s);
    hide Rest, Pick;
    var i := Origin(s, k);
    if j :| 0 <= j < |s.queue| && s.queue[j].pid == pid && (s.queue[j].stop ==> i <= j) {
      assert Listed(s.queue, i, pid);
    }
  }

  /** The switch of an exit wakes the waiters behind the task that exits and no other. */
  lemma ExitWakes(s: Sched, i: int)
    requires Inv(s) && Enabled(s, Exit) && !s.entry
    requires 0 < i < |s.queue| && i != s.cur && WaitsFor(s.queue[i], s.queue[s.cur].pid)
    ensures var q', k := Step(s, Exit).queue, if i > s.cur then i - 1 else i;
      && 0 < k < |q'| && q'[k].pid == s.queue[i].pid && q'[k].wait == (i < s.cur)
      && (i < s.cur ==> WaitsFor(q'[k], s.queue[s.cur].pid))
      && !HasPid(q', s.queue[s.cur].pid)
  {
    var m := Marked(s, Exit);
    MarkedShape(s, Exit);
    RestIs(m);
    SwitchPids(m);
    var k := if i > s.cur then i - 1 else i;
    assert Origin(m, k) == i;
    WaitExact(m, k, s.queue[s.cur].pid);
    assert m.queue[s.cur].stop && m.queue[s.cur].pid == s.queue[s.cur].pid;
    assert forall j :: 0 <= j < |m.queue| ==> m.queue[j].pid == s.queue[j].pid;
  }

  /** The others wake in the next switch, whatever it is for. */
  lemma NextSwitchWakes(s: Sched, op: Op, i: int, pid: int)
    requires Inv(s) && Enabled(s, op) && Switches(op) && !s.entry
    requires 0 < i < |s.queue| && i != s.cur && WaitsFor(s.queue[i], pid) && !HasPid(s.queue, pid)
    ensures var q', k := Step(s, op).queue, if op.Exit? && i > s.cur then i - 1 else i;
      0 < k < |q'| && q'[k].pid == s.queue[i].pid && !q'[k].wait
  {
    var m := Marked(s, op);
    MarkedShape(s, op);
    RestIs(m);
    SwitchPids(m);
    var k := if op.Exit? && i > s.cur then i - 1 else i;
    assert Origin(m, k) == i;
    WaitExact(m, k, pid);
    assert forall j :: 0 <= j < |m.queue| ==> m.queue[j].pid == s.queue[j].pid;
  }

  /** Entry k of the queue a switch leaves, against the entry it was: a sleep goes on exactly
      while the clock is short of its deadline; a wait of no known type goes on. */
  lemma SwitchEntry(s: Sched, k: int)
    requires Shape(s) && OnlyCurStops(s) && !s.entry && 0 <= k < |Switch(s).queue|
    ensures k <= Origin(s, k) < |s.queue| && (k == 0 <==> Origin(s, k) == 0)
    ensures var t, t' := s.queue[Origin(s, k)], Switch(s).queue[k];
      && t'.pid == t.pid && t'.busy == t.busy && t'.waitType == t.waitType && t'.running == (k == Switch(s).cur)
      && (t'.wait ==> t.wait && t'.deadline == t.deadline)
      && (t.wait && t.waitType == WAIT_SLEEP ==> (t'.wait <==> s.now < t.deadline))
      && (t.wait && t.waitType != WAIT_SLEEP && t.waitType != WAIT_PID ==> t'.wait)
  {
    RestIs(s);
    SwitchKeeps(s);
    hide Rest, Pick, Listed;
  }

  /** The choice: no entry between the old current one and the new, in cyclic order, could
      have been chosen. A task that goes leaves its place to the one behind. */
  lemma NonePassedOver(s: Sched, k: int)
    requires Shape(s) && OnlyCurStops(s) && !s.entry
    requires var from, p := s.cur + (if s.queue[s.cur].stop then 0 else 1), Switch(s).cur;
      && 0 <= k < |Switch(s).queue|
      && (if from <= p then from <= k < p else from <= k || k < p)
    ensures Switch(s).queue[k].wait || Switch(s).queue[k].busy
  {
    RestIs(s);
    SwitchKeeps(s);
    hide Rest, Pick, Visit;
  }

  // ---- what holds a task, and what lets it go

  /** A task waits for a pid, sleeps until a time, or is blocked on a read. */
  datatype Hold = ForPid(pid: int) | Until(time: int) | Blocked

  ghost predicate HeldAt(s: Sched, i: int, pid: int, h: Hold) {
    && 0 <= i < |s.queue| && s.queue[i].pid == pid
    && var t := s.queue[i];
    match h
    case ForPid(p) => t.wait && t.waitType == WAIT_PID && t.deadline == p
    case Until(time) => t.wait && t.waitType == WAIT_SLEEP && t.deadline == time
    case Blocked => t.busy
  }

  /** The task with this pid is listed and held so. */
  ghost predicate Held(s: Sched, pid: int, h: Hold) {
    exists i :: HeldAt(s, i, pid, h)
  }

  /** The step is a handled signal to the task with this pid. */
  predicate Hits(s: Sched, op: Op, pid: int) {
    op.Signal? && op.handled && 0 <= op.i < |s.queue| && s.queue[op.i].pid == pid
  }

  predicate Current(s: Sched, pid: int) { 0 <= s.cur < |s.queue| && s.queue[s.cur].pid == pid }

  /** The steps that let the task go. A read: its completion. A sleep: a handled signal, or a
      switch once the time has come. A wait: a handled signal, a switch when the pid is not
      listed, or the exit of the task waited for, when the waiter is behind it in the queue. */
  ghost predicate Releases(s: Sched, op: Op, pid: int, h: Hold) {
    match h
    case Blocked => op.Unblock? && 0 <= op.i < |s.queue| && s.queue[op.i].pid == pid
    case Until(time) => Hits(s, op, pid) || (Switches(op) && !s.entry && s.now >= time)
    case ForPid(p) =>
      || Hits(s, op, pid)
      || (Switches(op) && !s.entry && (!HasPid(s.queue, p) || (op.Exit? && Current(s, p) && p < pid)))
  }

  ghost predicate ReleasedInRun(s: Sched, ops: seq<Op>, pid: int, h: Hold)
    decreases |ops|
  {
    ops != [] && (Releases(s, ops[0], pid, h) || ReleasedInRun(Step(s, ops[0]), ops[1..], pid, h))
  }

  /** The task is held in every state of the run. */
  ghost predicate HeldThroughout(s: Sched, ops: seq<Op>, pid: int, h: Hold)
    decreases |ops|
  {
    Held(s, pid, h) && (ops != [] ==> HeldThroughout(Step(s, ops[0]), ops[1..], pid, h))
  }

  /** The task is listed, and neither waits, for whatever, nor is busy, as the hold has it. */
  ghost predicate LetGo(s: Sched, pid: int, h: Hold) {
    exists i :: 0 <= i < |s.queue| && s.queue[i].pid == pid && if h.Blocked? then !s.queue[i].busy else !s.queue[i].wait
  }

  /** A task held is not the current one, and is not idle. */
  lemma HeldOff(s: Sched, i: int, pid: int, h: Hold)
    requires Inv(s) && HeldAt(s, i, pid, h)
    ensures i != s.cur && 0 < i && !Current(s, pid)
  {
    if Current(s, pid) {
      SamePid(s.queue, s.lastPid, i, s.cur);
    }
  }

  /** A pid names one entry: what that one shows decides. */
  lemma HeldOnly(s: Sched, i: int, pid: int, h: Hold)
    requires PidsIncrease(s.queue, s.lastPid) && 0 <= i < |s.queue| && s.queue[i].pid == pid
    ensures Held(s, pid, h) <==> HeldAt(s, i, pid, h)
    ensures (if h.Blocked? then !s.queue[i].busy else !s.queue[i].wait) ==> LetGo(s, pid, h)
  {
    if j :| HeldAt(s, j, pid, h) {
      SamePid(s.queue, s.lastPid, i, j);
    }
  }

  lemma OtherStepReleases(s: Sched, op: Op, i: int, pid: int, h: Hold)
    requires Inv(s) && Enabled(s, op) && !Switches(op) && HeldAt(s, i, pid, h)
    ensures Held(Step(s, op), pid, h) <==> !Releases(s, op, pid, h)
    ensures Releases(s, op, pid, h) ==> LetGo(Step(s, op), pid, h)
  {
    var t := Step(s, op);
    StepKeeps(s, op);
    if op.Signal? || op.Unblock? {
      if s.queue[op.i].pid == pid {
        SamePid(s.queue, s.lastPid, op.i, i);
      }
    }
    HeldOnly(t, i, pid, h);
  }

  /** The waiter at i finds the pid in the sweep, unless nobody has it or the task exits and
      stands before it. */
  lemma FoundExact(s: Sched, op: Op, i: int, p: int)
    requires Inv(s) && Enabled(s, op) && Switches(op) && 0 < i < |s.queue| && i != s.cur
    ensures var q := Marked(s, op).queue;
      (exists j :: 0 <= j < |q| && q[j].pid == p && (q[j].stop ==> i <= j))
      <==> HasPid(s.queue, p) && !(op.Exit? && Current(s, p) && p < s.queue[i].pid)
  {
    var q := Marked(s, op).queue;
    assert forall j :: 0 <= j < |q| ==> q[j].pid == s.queue[j].pid && (q[j].stop <==> op.Exit? && j == s.cur);
    if j :| 0 <= j < |s.queue| && s.queue[j].pid == p {
      assert q[j].pid == p;
      if Current(s, p) {
        SamePid(s.queue, s.lastPid, j, s.cur);
      }
      if l :| 0 <= l < |q| && q[l].pid == p {
        SamePid(s.queue, s.lastPid, j, l);
      }
    }
  }

  /** A switch, with what it is for marked in the current task. */
  lemma SwitchReleases(s: Sched, op: Op, i: int, pid: int, h: Hold)
    requires Inv(s) && Enabled(s, op) && Switches(op) && !s.entry && HeldAt(s, i, pid, h)
    ensures Held(Step(s, op), pid, h) <==> !Releases(s, op, pid, h)
    ensures Releases(s, op, pid, h) ==> LetGo(Step(s, op), pid, h)
  {
    var m, k := Marked(s, op), if op.Exit? && i > s.cur then i - 1 else i;
    HeldOff(s, i, pid, h);
    MarkedShape(s, op);
    SwitchPids(m);
    assert Origin(m, k) == i && m.queue[i] == s.queue[i];
    SwitchKeeps(m);
    HeldOnly(Switch(m), k, pid, h);
    SwitchEntry(m, k);
    if h.ForPid? {
      RestIs(m);
      WaitExact(m, k, h.pid);
      FoundExact(s, op, i, h.pid);
    }
  }

  /** A step ends a hold exactly when it is one of those that let the task go. */
  lemma StepReleases(s: Sched, op: Op, pid: int, h: Hold)
    requires Inv(s) && Enabled(s, op) && Held(s, pid, h)
    ensures Held(Step(s, op), pid, h) <==> !Releases(s, op, pid, h)
    ensures Releases(s, op, pid, h) ==> LetGo(Step(s, op), pid, h)
    ensures !Current(s, pid)
  {
    var i :| HeldAt(s, i, pid, h);
    HeldOff(s, i, pid, h);
    if !Switches(op) {
      OtherStepReleases(s, op, i, pid, h);
    } else if !s.entry {
      SwitchReleases(s, op, i, pid, h);
    } else {
      assert HeldAt(Step(s, op), i, pid, h);
    }
  }

  lemma NotHeld(s: Sched, ops: seq<Op>, pid: int, h: Hold)
    requires ops != [] && !Held(Step(s, ops[0]), pid, h)
    ensures !HeldThroughout(s, ops, pid, h)
  {
  }

  lemma HeldIsOff(s: Sched, pid: int, h: Hold)
    requires Inv(s) && Held(s, pid, h)
    ensures !Current(s, pid)
  {
    var i :| HeldAt(s, i, pid, h);
    HeldOff(s, i, pid, h);
  }

  /** Some switch of the run chooses the task. */
  ghost predicate Chosen(s: Sched, ops: seq<Op>, pid: int)
    requires Legal(s, ops)
    decreases |ops|
  {
    ops != [] && ((Switches(ops[0]) && Current(Step(s, ops[0]), pid)) || Chosen(Step(s, ops[0]), ops[1..], pid))
  }

  /** Over every run, a task that sleeps, waits for a pid or is blocked is held in every state
      if and only if no step of the run is one of those that let it go. Until then it is not
      chosen. */
  lemma {:induction false} HeldExact(s: Sched, ops: seq<Op>, pid: int, h: Hold)
    requires Inv(s) && Legal(s, ops) && Held(s, pid, h)
    ensures HeldThroughout(s, ops, pid, h) <==> !ReleasedInRun(s, ops, pid, h)
    ensures !ReleasedInRun(s, ops, pid, h) ==> Held(Run(s, ops), pid, h) && !Chosen(s, ops, pid)
    decreases |ops|
  {
    if ops == [] {
    } else {
      hide Inv, Step, Held, LetGo, Releases, Enabled, Current;
      StepKeeps(s, ops[0]);
      StepReleases(s, ops[0], pid, h);
      if !Releases(s, ops[0], pid, h) {
        HeldExact(Step(s, ops[0]), ops[1..], pid, h);
        HeldIsOff(Step(s, ops[0]), pid, h);
      } else {
        NotHeld(s, ops, pid, h);
      }
    }
  }

  /** The task that was current, after its system call. */
  lemma CallerAfter(s: Sched, op: Op)
    requires Inv(s) && Enabled(s, op) && (op.Sleep? || op.WaitFor? || op.Block?)
    ensures var m, t := Marked(s, op), Step(s, op);
      && Shape(m) && OnlyCurStops(m) && !m.entry && t == Switch(m) && Inv(t)
      && |t.queue| == |s.queue| && Origin(m, s.cur) == s.cur && t.queue[s.cur].pid == s.queue[s.cur].pid
  {
    MarkedShape(s, op);
    StepKeeps(s, op);
    SwitchPids(Marked(s, op));
    hide Switch;
  }

  /** A sleep begins unless it is of no ticks, and lasts until that many have gone by. */
  lemma SleepBegins(s: Sched, ticks: nat)
    requires Inv(s) && Enabled(s, Sleep(ticks))
    ensures var t, pid := Step(s, Sleep(ticks)), s.queue[s.cur].pid;
      && Inv(t) && (Held(t, pid, Until(s.now + ticks)) <==> ticks > 0)
      && (ticks == 0 ==> LetGo(t, pid, Until(s.now)))
  {
    var op, pid := Sleep(ticks), s.queue[s.cur].pid;
    CallerAfter(s, op);
    SwitchEntry(Marked(s, op), s.cur);
    HeldOnly(Step(s, op), s.cur, pid, Until(s.now + ticks));
    HeldOnly(Step(s, op), s.cur, pid, Until(s.now));
  }

  /** Over every run: a task that sleeps for some ticks goes on sleeping exactly as long as it
      gets no handled signal and there is no switch at or after the time it called plus the
      ticks. The first of these ends its wait. */
  lemma SleepExact(s: Sched, ticks: nat, ops: seq<Op>)
    requires Inv(s) && Enabled(s, Sleep(ticks)) && ticks > 0 && Legal(Step(s, Sleep(ticks)), ops)
    ensures var t, pid, h := Step(s, Sleep(ticks)), s.queue[s.cur].pid, Until(s.now + ticks);
      && Held(t, pid, h) && (HeldThroughout(t, ops, pid, h) <==> !ReleasedInRun(t, ops, pid, h))
      && (!ReleasedInRun(t, ops, pid, h) ==> !Chosen(t, ops, pid))
  {
    var pid := s.queue[s.cur].pid;
    hide Inv, Step, Held, Releases, Enabled;
    SleepBegins(s, ticks);
    HeldExact(Step(s, Sleep(ticks)), ops, pid, Until(s.now + ticks));
  }

  /** A wait begins if the pid is listed, the caller's own included, and else ends in the same
      switch. It clears the task's other marks. */
  lemma WaitBegins(s: Sched, p: int)
    requires Inv(s) && Enabled(s, WaitFor(p))
    ensures var t, pid := Step(s, WaitFor(p)), s.queue[s.cur].pid;
      && Inv(t) && (Held(t, pid, ForPid(p)) <==> HasPid(s.queue, p)) && LetGo(t, pid, Blocked)
      && (!HasPid(s.queue, p) ==> LetGo(t, pid, ForPid(p)))
  {
    var op, pid := WaitFor(p), s.queue[s.cur].pid;
    var m, t := Marked(s, op), Step(s, op);
    CallerAfter(s, op);
    SwitchEntry(m, s.cur);
    RestIs(m);
    WaitExact(m, s.cur, p);
    HeldOnly(t, s.cur, pid, ForPid(p));
    HeldOnly(t, s.cur, pid, Blocked);
    assert forall j :: 0 <= j < |m.queue| ==> m.queue[j].pid == s.queue[j].pid && !m.queue[j].stop;
  }

  /** A read that completes later blocks its caller until it does, over every run. */
  lemma BlockExact(s: Sched, ops: seq<Op>)
    requires Inv(s) && Enabled(s, Block) && Legal(Step(s, Block), ops)
    ensures var t, pid := Step(s, Block), s.queue[s.cur].pid;
      && Held(t, pid, Blocked) && (HeldThroughout(t, ops, pid, Blocked) <==> !ReleasedInRun(t, ops, pid, Blocked))
      && (!ReleasedInRun(t, ops, pid, Blocked) ==> !Chosen(t, ops, pid))
  {
    var t, pid := Step(s, Block), s.queue[s.cur].pid;
    CallerAfter(s, Block);
    SwitchEntry(Marked(s, Block), s.cur);
    HeldOnly(t, s.cur, pid, Blocked);
    hide Inv, Step, Held, Releases;
    HeldExact(t, ops, pid, Blocked);
  }

  ghost predicate HitInRun(s: Sched, ops: seq<Op>, pid: int)
    decreases |ops|
  {
    ops != [] && (Hits(s, ops[0], pid) || HitInRun(Step(s, ops[0]), ops[1..], pid))
  }

  lemma {:induction false} OnlyHitsRelease(s: Sched, ops: seq<Op>, pid: int)
    requires Inv(s) && Legal(s, ops) && pid > 0
    ensures ReleasedInRun(s, ops, pid, ForPid(0)) <==> HitInRun(s, ops, pid)
    decreases |ops|
  {
    if ops == [] {
    } else {
      assert s.queue[0].pid == 0;
      StepKeeps(s, ops[0]);
      hide Inv, Step;
      OnlyHitsRelease(Step(s, ops[0]), ops[1..], pid);
    }
  }

  /** A task that waits for pid 0 does so for ever, but for a handled signal: neither an exit
      nor the clock ends the wait. */
  lemma WaitForIdle(s: Sched, ops: seq<Op>)
    requires Inv(s) && Enabled(s, WaitFor(0)) && Legal(Step(s, WaitFor(0)), ops)
    ensures var t, pid := Step(s, WaitFor(0)), s.queue[s.cur].pid;
      && Held(t, pid, ForPid(0)) && (HeldThroughout(t, ops, pid, ForPid(0)) <==> !HitInRun(t, ops, pid))
      && (!HitInRun(t, ops, pid) ==> Held(Run(t, ops), pid, ForPid(0)) && !Chosen(t, ops, pid))
  {
    var t, pid := Step(s, WaitFor(0)), s.queue[s.cur].pid;
    assert s.queue[0].pid == 0 < pid;
    WaitBegins(s, 0);
    hide Inv, Step, Held, Releases, Enabled;
    HeldExact(t, ops, pid, ForPid(0));
    OnlyHitsRelease(t, ops, pid);
  }

  // ---- bounded waiting

  ghost predicate ReadyAt(s: Sched, e: int, pid: int) {
    0 <= e < |s.queue| && s.queue[e].pid == pid && !s.queue[e].wait && !s.queue[e].busy
  }

  /** The task is listed and neither waits nor is busy. */
  ghost predicate Ready(s: Sched, pid: int) {
    exists e :: ReadyAt(s, e, pid)
  }

  /** Switches until entry e's turn, at most: 1 to the length of the queue. */
  function Turn(s: Sched, e: int): int
    requires 0 <= s.cur < |s.queue|
  {
    Ahead(s.queue, After(s.queue, s.cur), e) + 1
  }

  /** A switch that does not choose a task that can run brings its turn nearer. */
  lemma SwitchNearer(s: Sched, e: int, e': int, pid: int)
    requires Shape(s) && OnlyCurStops(s) && !s.entry
    requires 0 <= e < |s.queue| && s.queue[e].pid == pid && ReadyAt(Switch(s), e', pid)
    ensures Switch(s).cur == e' || Turn(Switch(s), e') < Turn(s, e)
  {
    hide Rest, Switch, Pick, Visit, PidsIncrease;
    SwitchPids(s);
    SwitchKeeps(s);
    RestIs(s);
    SamePid(s.queue, s.lastPid, Origin(s, e'), e);
    var r := Rest(s);
    assert Runnable(r[e']);
    var st := Start(s, r);
    assert Ahead(r, st, Switch(s).cur) <= Ahead(r, st, e');
    assert Ahead(r, st, e') + 1 <= Turn(s, e);
  }

  /** Every other step keeps the turn where it is, but that a new task can come before it. */
  lemma StepTurn(s: Sched, op: Op, e: int, e': int, pid: int)
    requires Inv(s) && Enabled(s, op) && !Switches(op) && 0 <= e < |s.queue| && s.queue[e].pid == pid
    requires ReadyAt(Step(s, op), e', pid)
    ensures Turn(Step(s, op), e') <= Turn(s, e) + if op.Enable? then 1 else 0
  {
    StepKeeps(s, op);
    var q := Step(s, op).queue;
    assert q[e].pid == pid;
    SamePid(q, Step(s, op).lastPid, e, e');
  }

  function Count(ops: seq<Op>, switching: bool): nat {
    if ops == [] then 0
    else (if (if switching then Switches(ops[0]) else ops[0].Enable?) then 1 else 0) + Count(ops[1..], switching)
  }

  ghost predicate ReadyThroughout(s: Sched, ops: seq<Op>, pid: int)
    requires Legal(s, ops)
    decreases |ops|
  {
    Ready(s, pid) && (ops != [] ==> ReadyThroughout(Step(s, ops[0]), ops[1..], pid))
  }

  lemma TurnAfter(s: Sched, op: Op, e: int, e': int, pid: int)
    requires Inv(s) && !s.entry && Enabled(s, op) && ReadyAt(s, e, pid) && ReadyAt(Step(s, op), e', pid)
    requires Switches(op) ==> !Current(Step(s, op), pid)
    ensures Inv(Step(s, op))
    ensures Turn(Step(s, op), e') <= Turn(s, e) + (if op.Enable? then 1 else 0) - (if Switches(op) then 1 else 0)
  {
    StepKeeps(s, op);
    if Switches(op) {
      var m := Marked(s, op);
      MarkedShape(s, op);
      assert Turn(m, e) == Turn(s, e) && m.queue[e].pid == pid;
      hide Switch, Mark, Turn;
      SwitchNearer(m, e, e', pid);
    } else {
      StepTurn(s, op, e, e', pid);
    }
  }

  lemma {:induction false} NotChosen(s: Sched, ops: seq<Op>, pid: int, e: int)
    requires Inv(s) && !s.entry && Legal(s, ops) && ReadyThroughout(s, ops, pid) && ReadyAt(s, e, pid)
    requires !Chosen(s, ops, pid)
    ensures Count(ops, true) < Turn(s, e) + Count(ops, false)
    decreases |ops|
  {
    if ops == [] {
    } else {
      var op, s' := ops[0], Step(s, ops[0]);
      StepKeeps(s, op);
      assert Ready(s', pid);
      var e' :| ReadyAt(s', e', pid);
      TurnAfter(s, op, e, e', pid);
      hide Step, Inv, Ready, Turn, Enabled;
      NotChosen(s', ops[1..], pid, e');
    }
  }

  /** Over a run in which a task can run all along, it is chosen within as many switches as
      the queue has entries, and one more for every task enabled meanwhile. */
  lemma BoundedWaiting(s: Sched, ops: seq<Op>, pid: int)
    requires Inv(s) && !s.entry && Legal(s, ops) && ReadyThroughout(s, ops, pid)
    requires Count(ops, true) >= |s.queue| + Count(ops, false)
    ensures Chosen(s, ops, pid)
  {
    var e :| ReadyAt(s, e, pid);
    if !Chosen(s, ops, pid) {
      NotChosen(s, ops, pid, e);
    }
  }
}

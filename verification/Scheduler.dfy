/** The run queue itself: linked task structures, src/arch/x86/task/task.c,
    src/sys/task.c and the scheduling system calls of src/arch/x86/syscall.c. */
module Scheduling {
  import opened RunQueue

  datatype Flag = RUNNING | STOP | WAIT | BUSY

  const SYSTICK_DES_RES := 1000000

  datatype Outcome = Returned(value: int) | Panicked

  class Task {
    var flag: set<Flag>
    var waitType: int
    /** The signal context exists and an entry point is set. */
    var handles: bool
    /** Null for the idle task: no task_ctl_t, and so no pid and no deadline. */
    const hasCtl: bool
    var pid: int
    var deadline: int
    var next: Task?

    constructor (hasCtl: bool)
      ensures flag == {} && next == null && this.hasCtl == hasCtl && !handles && deadline == 0
    {
      flag, next, handles, deadline, this.hasCtl := {}, null, false, 0, hasCtl;
    }

    ghost function State(): TaskState
      reads this`flag, this`waitType, this`pid, this`deadline
    {
      TaskState(if hasCtl then pid else 0, RUNNING in flag, STOP in flag, WAIT in flag, BUSY in flag, waitType, deadline)
    }
  }

  ghost predicate Distinct(q: seq<Task>) {
    forall i, j :: 0 <= i < j < |q| ==> q[i] != q[j]
  }

  /** Where the search starts in a queue of n. */
  function FirstFrom(pos: int, gone: bool, n: int): int {
    var st := if gone then pos else pos + 1;
    if st < n then st else 0
  }

  ghost function Keep(q: seq<Task>, c: int, gone: bool): seq<Task> {
    if gone && 0 <= c < |q| then q[..c] + q[c + 1..] else q
  }

  lemma DistinctFrom(q: seq<Task>, i: int)
    requires Distinct(q) && 0 <= i < |q|
    ensures forall j :: 0 <= j < |q| && j != i ==> q[j] != q[i]
  {
  }

  lemma DistinctWith(q: seq<Task>, t: Task)
    requires Distinct(q) && t !in q
    ensures Distinct(q + [t])
  {
  }

  ghost function States(q: seq<Task>): (vs: seq<TaskState>)
    reads q`flag, q`waitType, q`pid, q`deadline
    ensures |vs| == |q| && forall i :: 0 <= i < |q| ==> vs[i] == q[i].State()
  {
    if q == [] then [] else States(q[..|q| - 1]) + [q[|q| - 1].State()]
  }

  lemma StepIsSwitch(s: Sched, op: Op)
    requires Inv(s) && Switches(op) && (op.Tick? || 0 < s.cur)
    ensures Enabled(s, op) ==> Step(s, op) == Switch(Marked(s, op))
    ensures op.Tick? ==> Marked(s, op) == s
  {
  }

  lemma EnableIs(s: Sched, waitType: int)
    requires Inv(s)
    ensures Inv(Step(s, Op.Enable(waitType)))
    ensures Step(s, Op.Enable(waitType)) ==
      s.(queue := s.queue + [TaskState(s.lastPid + 1, false, false, false, false, waitType, 0)], lastPid := s.lastPid + 1)
  {
    StepKeeps(s, Op.Enable(waitType));
  }

  lemma UnblockIs(s: Sched, i: int)
    requires Inv(s) && 0 < i < |s.queue|
    ensures Inv(Step(s, Unblock(i)))
    ensures Step(s, Unblock(i)) == s.(queue := s.queue[i := s.queue[i].(busy := false)])
  {
    StepKeeps(s, Unblock(i));
  }

  lemma SignalIs(s: Sched, i: int, handled: bool)
    requires Inv(s) && 0 < i < |s.queue|
    ensures Inv(Step(s, Signal(i, handled)))
    ensures Step(s, Signal(i, handled)) == if handled then s.(queue := s.queue[i := s.queue[i].(wait := false)]) else s
  {
    StepKeeps(s, Signal(i, handled));
  }

  /** Midway through the sweep: entries before i are visited, the others are as they were,
      and c is left out once it is gone. */
  ghost predicate Swept(q: seq<TaskState>, vs: seq<TaskState>, i: int, c: int, gone: bool, now: int) {
    && 0 <= c < |vs| && |q| == |vs| - (if gone then 1 else 0)
    && forall j :: 0 <= j < |q| ==>
      q[j] == (if j < i then Visit(vs, if gone && j >= c then j + 1 else j, now) else vs[if gone && j >= c then j + 1 else j])
  }

  lemma SweptListed(q: seq<TaskState>, vs: seq<TaskState>, i: int, c: int, gone: bool, now: int)
    requires Swept(q, vs, i, c, gone, now) && 0 <= i < |q|
    requires forall j :: 0 <= j < |vs| && vs[j].stop ==> j == c
    requires if gone then vs[c].stop && c <= i else i <= c || !vs[c].stop
    ensures forall pid :: HasPid(q, pid) <==> Listed(vs, if gone then i + 1 else i, pid)
  {
    hide Wakes;
    var k := if gone then i + 1 else i;
    forall pid | HasPid(q, pid)
      ensures Listed(vs, k, pid)
    {
      var j :| 0 <= j < |q| && q[j].pid == pid;
      var o := if gone && j >= c then j + 1 else j;
      assert vs[o].pid == pid;
    }
    forall pid | Listed(vs, k, pid)
      ensures HasPid(q, pid)
    {
      var j :| 0 <= j < |vs| && vs[j].pid == pid && !(vs[j].stop && j < k);
      var o := if gone && j > c then j - 1 else j;
      assert q[o].pid == pid;
    }
  }

  lemma SweptGone(q: seq<TaskState>, q': seq<TaskState>, vs: seq<TaskState>, i: int, now: int)
    requires Swept(q, vs, i, i, false, now) && 0 <= i < |q| && |q'| == |q| - 1
    requires forall j :: 0 <= j < |q'| ==> q'[j] == q[if j < i then j else j + 1]
    ensures Swept(q', vs, i, i, true, now)
  {
  }

  lemma SweptNext(q: seq<TaskState>, q': seq<TaskState>, vs: seq<TaskState>, i: int, c: int, gone: bool, now: int)
    requires Swept(q, vs, i, c, gone, now) && 0 <= i < |q| && (gone ==> c <= i)
    requires q' == q[i := Visit(vs, if gone then i + 1 else i, now)]
    ensures Swept(q', vs, i + 1, c, gone, now)
  {
  }

  lemma DistinctWithout(q: seq<Task>, i: int)
    requires Distinct(q) && 0 <= i < |q|
    ensures Distinct(q[..i] + q[i + 1..])
  {
  }

  class Scheduler {
    const idle: Task
    var current: Task
    var first: Task
    var last: Task
    var lastPid: int
    var entry: bool
    var systime: int
    /** The tasks from first along next, and where in it current is. */
    ghost var queue: seq<Task>
    ghost var pos: int

    ghost function NodeAt(i: int): Task?
      reads this`queue
    {
      if 0 <= i < |queue| then queue[i] else null
    }

    ghost predicate LinkAt(i: int)
      requires 0 <= i < |queue|
      reads this`queue, queue`next
    {
      queue[i].next == NodeAt(i + 1)
    }

    ghost predicate Linked()
      reads this`queue, this`first, this`last, queue`next
    {
      && |queue| > 0 && first == idle == queue[0] && last == queue[|queue| - 1] && !idle.hasCtl
      && Distinct(queue)
      && (forall i :: 0 <= i < |queue| ==> LinkAt(i))
      && (forall i :: 0 < i < |queue| ==> queue[i].hasCtl)
    }

    ghost function View(): seq<TaskState>
      reads this`queue, queue`flag, queue`waitType, queue`pid, queue`deadline
    {
      States(queue)
    }

    ghost function Value(): Sched
      reads this, queue
    {
      Sched(View(), pos, systime, lastPid, entry)
    }

    ghost predicate Valid()
      reads this, queue
    {
      Linked() && current == NodeAt(pos) && Inv(Value())
    }

    lemma NotIdle(i: int)
      requires Linked() && 0 <= i < |queue| && queue[i].State().pid != 0
      ensures 0 < i
    {
    }

    lemma CurrentListed()
      requires Valid()
      ensures Inv(Value()) && 0 <= pos < |queue| && current == queue[pos]
    {
      hide Linked, States;
    }

    lemma Alone(i: int)
      requires Linked() && 0 <= i < |queue|
      ensures forall j :: 0 <= j < |queue| && j != i ==> queue[j] != queue[i]
    {
      DistinctFrom(queue, i);
    }

    /** x86_task_init: the idle task alone. */
    constructor (idleTask: Task)
      requires !idleTask.hasCtl && idleTask.flag == {} && idleTask.next == null
      ensures Valid() && Value().queue == [idleTask.State()] && entry
    {
      idle, current, first, last, lastPid, entry, systime := idleTask, idleTask, idleTask, idleTask, 0, true, 0;
      queue, pos := [idleTask], 0;
    }

    /** task_by_pid: the idle task for 0. */
    method TaskByPid(wanted: int) returns (res: Task?)
      requires Linked()
      ensures res == null <==> !HasPid(View(), wanted)
      ensures res != null ==> res in queue && res.State().pid == wanted
    {
      var t: Task? := first;
      ghost var i := 0;
      while t != null
        invariant 0 <= i <= |queue| && t == NodeAt(i)
        invariant forall j :: 0 <= j < i ==> queue[j].State().pid != wanted
        decreases |queue| - i
      {
        if t.hasCtl {
          if t.pid == wanted {
            assert View()[i].pid == wanted;
            return t;
          }
        } else if wanted == 0 {
          assert View()[i].pid == wanted;
          return t;
        }
        assert LinkAt(i);
        t, i := t.next, i + 1;
      }
      res := null;
    }

    /** Link a task in at the end. */
    method Append(t: Task)
      requires Linked() && t !in queue && t.hasCtl && t.next == null
      modifies this`last, this`queue, last`next
      ensures Linked() && queue == old(queue) + [t] && View() == old(View()) + [t.State()]
    {
      DistinctWith(queue, t);
      DistinctFrom(queue, |queue| - 1);
      hide Distinct, States;
      last.next := t;
      last := t;
      queue := queue + [t];
      forall j | 0 <= j < |queue|
        ensures LinkAt(j)
      {
        assert j < |queue| - 1 ==> old(LinkAt(j));
      }
    }

    method GivePid(t: Task)
      requires Linked() && t !in queue && t.hasCtl && t.next == null && t.deadline == 0
      modifies this`lastPid, t`pid, t`flag
      ensures Linked() && lastPid == old(lastPid) + 1 && View() == old(View())
      ensures t.State() == TaskState(lastPid, false, false, false, false, t.waitType, 0)
      ensures t.pid == lastPid && t.flag == {}
    {
      hide Distinct, States;
      lastPid := lastPid + 1;
      t.pid := lastPid;
      t.flag := {};
    }

    /** task_enable, on a task that is not in the queue. */
    method Enable(t: Task)
      requires Valid() && t !in queue && t.hasCtl && t.next == null && t.deadline == 0
      modifies this`lastPid, this`last, this`queue, t`pid, t`flag, last`next
      ensures Valid() && Value() == Step(old(Value()), Op.Enable(t.waitType))
      ensures queue == old(queue) + [t] && t.pid == lastPid == old(lastPid) + 1 && t.flag == {}
    {
      hide Linked, Inv, Step, States;
      CurrentListed();
      EnableIs(Value(), t.waitType);
      GivePid(t);
      Append(t);
    }

    /** task_nobusy. */
    method NoBusy(t: Task, ghost i: nat)
      requires Valid() && 0 < i < |queue| && t == queue[i]
      modifies t
      ensures Valid() && Value() == Step(old(Value()), Unblock(i))
      ensures View() == old(View())[i := old(View())[i].(busy := false)]
    {
      hide Linked, Inv, Step, States;
      CurrentListed();
      UnblockIs(Value(), i);
      Alone(i);
      t.flag := t.flag - {BUSY};
      assert View() == old(View())[i := old(View())[i].(busy := false)];
    }

    // ---- the switch

    /** Lines 300-303: take the task behind tp out. Its own link stays. */
    method Unlink(tp: Task, t: Task, ghost i: int)
      requires Linked() && 0 < i < |queue| && t == queue[i] && tp == queue[i - 1]
      modifies tp`next, this`last, this`queue
      ensures Linked() && queue == old(queue)[..i] + old(queue)[i + 1..] && t.next == NodeAt(i)
    {
      DistinctFrom(queue, i - 1);
      DistinctFrom(queue, i);
      DistinctWithout(queue, i);
      hide Distinct;
      assert LinkAt(i) && LinkAt(i - 1);
      tp.next := t.next;
      if t == last {
        last := tp;
      }
      queue := queue[..i] + queue[i + 1..];
      forall j | 0 <= j < |queue|
        ensures LinkAt(j)
      {
        assert old(LinkAt(if j < i then j else j + 1));
      }
    }

    /** Lines 350-369: end a sleep or a wait that is over. */
    method Wake(t: Task, ghost vs: seq<TaskState>, ghost k: int)
      requires Linked() && t.hasCtl && 0 < k < |vs| && t.State() == vs[k]
      requires forall pid :: HasPid(View(), pid) <==> Listed(vs, k, pid)
      modifies t`flag, t`deadline
      ensures t.State() == Visit(vs, k, systime)
    {
      if WAIT in t.flag {
        if t.waitType == WAIT_SLEEP {
          if systime >= t.deadline {
            t.flag := t.flag - {WAIT};
          }
        } else if t.waitType == WAIT_PID {
          var t2 := TaskByPid(t.deadline);
          if t2 == null {
            t.deadline := 0;
            t.flag := t.flag - {WAIT};
          }
        }
      }
    }

    ghost predicate SweptTo(was: seq<Task>, vs: seq<TaskState>, i: int, c: int, gone: bool)
      reads this, queue`next, current`next
    {
      && Linked() && 0 <= i <= |queue| && |was| == |vs| && 0 <= c < |vs|
      && queue == Keep(was, c, gone) && current == was[c]
      && (gone ==> vs[c].stop && c <= i && vs[c].pid != 1 && current.next == NodeAt(c))
      && (!gone ==> i <= c || !vs[c].stop)
      && (forall j :: 0 <= j < |vs| && vs[j].stop ==> j == c && c != 0)
    }

    /** The sweep has come to index i of the queue; c was the current task's, and gone says
        that it has been taken out. */
    ghost predicate Sweeping(was: seq<Task>, vs: seq<TaskState>, i: int, c: int, gone: bool)
      reads this, queue, current
    {
      SweptTo(was, vs, i, c, gone) && Swept(States(queue), vs, i, c, gone, systime)
    }

    lemma BeforeVisit(was: seq<Task>, vs: seq<TaskState>, i: int, c: int, gone: bool)
      requires Sweeping(was, vs, i, c, gone) && 0 < i < |queue| && STOP !in queue[i].flag
      ensures var k := if gone then i + 1 else i;
        && Linked() && 0 < k < |vs| && queue[i].State() == vs[k] && !vs[k].stop
        && (gone ==> c <= i) && forall pid :: HasPid(View(), pid) <==> Listed(vs, k, pid)
    {
      hide Linked, Visit, Keep, HasPid, Listed;
      SweptListed(States(queue), vs, i, c, gone, systime);
    }

    lemma VisitMoves(was: seq<Task>, vs: seq<TaskState>, i: int, c: int, gone: bool)
      requires SweptTo(was, vs, i, c, gone) && 0 <= i < |queue| && !vs[if gone then i + 1 else i].stop
      ensures SweptTo(was, vs, i + 1, c, gone)
    {
      hide Linked;
    }

    /** The visit of a task that is not stopped. */
    method VisitTask(t: Task, ghost was: seq<Task>, ghost vs: seq<TaskState>, ghost i: int, ghost c: int, ghost gone: bool)
      requires Sweeping(was, vs, i, c, gone) && 0 < i < |queue| && t == queue[i] && STOP !in t.flag && t.hasCtl
      modifies t`flag, t`deadline
      ensures Sweeping(was, vs, i + 1, c, gone)
    {
      hide SweptTo, Linked, Swept, States, Visit, Listed, HasPid, Keep;
      BeforeVisit(was, vs, i, c, gone);
      Alone(i);
      ghost var q := States(queue);
      Wake(t, vs, if gone then i + 1 else i);
      assert States(queue) == q[i := t.State()];
      VisitMoves(was, vs, i, c, gone);
      SweptNext(q, States(queue), vs, i, c, gone, systime);
    }

    /** The idle task is passed over. */
    lemma PassIdle(was: seq<Task>, vs: seq<TaskState>, c: int)
      requires Sweeping(was, vs, 0, c, false) && |queue| > 0
      ensures Sweeping(was, vs, 1, c, false)
    {
      hide Linked, States;
      SweptNext(States(queue), States(queue), vs, 0, c, false, systime);
    }

    lemma BeforeReap(was: seq<Task>, vs: seq<TaskState>, i: int, c: int)
      requires Sweeping(was, vs, i, c, false) && 0 < i < |queue| && STOP in queue[i].flag && queue[i].hasCtl
      ensures i == c < |vs| && current == queue[i] == was[i] && queue == was && vs[i].stop && vs[i].pid == queue[i].pid
    {
      hide Linked, Distinct, Visit;
      assert States(queue)[i] == queue[i].State();
    }

    /** The stopped task goes; only the current one can be stopped. */
    method Reap(tp: Task, t: Task, ghost was: seq<Task>, ghost vs: seq<TaskState>, ghost i: int, ghost c: int)
      requires Sweeping(was, vs, i, c, false) && 0 < i < |queue| && t == queue[i] && tp == queue[i - 1] && STOP in t.flag
      requires t.hasCtl
      modifies tp`next, this`last, this`queue
      ensures i == c && t == current && t.next == NodeAt(i)
      ensures t.pid != 1 ==> Sweeping(was, vs, i, c, true)
      ensures 0 <= c < |vs| && vs[c].stop && vs[c].pid == t.pid && queue == old(queue)[..i] + old(queue)[i + 1..]
    {
      hide Distinct, States, Visit, LinkAt, Linked, Swept;
      BeforeReap(was, vs, i, c);
      Alone(i - 1);
      ghost var q := States(queue);
      Unlink(tp, t, i);
      forall j | 0 <= j < |queue|
        ensures States(queue)[j] == q[if j < i then j else j + 1]
      {
        assert queue[j] == was[if j < i then j else j + 1];
      }
      SweptGone(q, States(queue), vs, i, systime);
    }

    lemma InSweep(was: seq<Task>, vs: seq<TaskState>, i: int, c: int, gone: bool)
      requires Sweeping(was, vs, i, c, gone) && 0 <= i < |queue|
      ensures (queue[i] == idle <==> i == 0) && (i > 0 ==> queue[i].hasCtl) && queue[i].next == NodeAt(i + 1)
      ensures STOP in queue[i].flag ==> i == c && !gone && i > 0
      ensures queue[i] in was && (i > 0 ==> queue[i - 1] in was)
      ensures i == 0 ==> !gone
    {
      DistinctFrom(queue, 0);
      hide Distinct, Visit;
      assert LinkAt(i);
      assert States(queue)[i] == queue[i].State();
    }

    method SweepLoop(ghost was: seq<Task>, ghost vs: seq<TaskState>, ghost c: int) returns (panicked: bool, ghost gone: bool)
      requires Sweeping(was, vs, 0, c, false) && |queue| > 0 && first == queue[0]
      modifies this`last, this`queue, was
      ensures !panicked ==> Sweeping(was, vs, |queue|, c, gone)
      ensures panicked ==> gone && 0 <= c < |vs| && vs[c].stop && vs[c].pid == 1
    {
      gone := false;
      var tp: Task? := null;
      var t: Task? := first;
      ghost var i := 0;
      hide Sweeping, Linked, Swept, Distinct, States, Keep;
      while t != null
        invariant Sweeping(was, vs, i, c, gone) && 0 <= i <= |queue|
        invariant t == NodeAt(i) && tp == NodeAt(i - 1)
        decreases |queue| - i
      {
        InSweep(was, vs, i, c, gone);
        if t == idle {
          PassIdle(was, vs, c);
          tp := t;
        } else if STOP in t.flag {
          Reap(tp, t, was, vs, i, c);
          gone := true;
          if t.pid == 1 {
            return true, true;
          }
          i := i - 1;
        } else {
          VisitTask(t, was, vs, i, c, gone);
          tp := t;
        }
        t, i := t.next, i + 1;
      }
      panicked := false;
    }

    lemma StartSweep()
      requires Linked() && current == NodeAt(pos) && Shape(Value()) && OnlyCurStops(Value())
      ensures Sweeping(queue, View(), 0, pos, false) && |queue| > 0 && first == queue[0]
      ensures View()[pos].stop == (STOP in current.flag) && (View()[pos].stop ==> View()[pos].pid == current.pid)
    {
      hide Distinct;
    }

    lemma EndSweep(was: seq<Task>, vs: seq<TaskState>, c: int, gone: bool)
      requires Sweeping(was, vs, |queue|, c, gone)
      ensures Linked() && View() == SweepFrom(vs, 0, systime) && gone == vs[c].stop
      ensures current.next == NodeAt(if gone then c else c + 1) && (gone ==> vs[c].pid != 1)
      ensures queue == Keep(was, c, gone)
    {
      SweepIs(vs, 0, systime, c);
      if !gone { assert LinkAt(c); }
      hide Distinct, SweepFrom, Visit;
    }

    /** Lines 288-371. The task taken out, if any, is the current one; its link is still read. */
    method Sweep() returns (panicked: bool, ghost gone: bool)
      requires Linked() && current == NodeAt(pos) && Shape(Value()) && OnlyCurStops(Value())
      modifies this`last, this`queue, queue
      ensures gone == old(STOP in current.flag)
      ensures panicked <==> gone && old(current.pid) == 1
      ensures !panicked ==> Linked() && View() == SweepFrom(old(View()), 0, systime)
      ensures !panicked ==> queue == Keep(old(queue), pos, gone)
      ensures !panicked ==> current.next == NodeAt(if gone then pos else pos + 1)
    {
      ghost var vs, was := View(), queue;
      StartSweep();
      hide Sweeping, Linked, Inv, Shape, OnlyCurStops, SweepFrom, States, Keep;
      assert queue == Keep(was, pos, false);
      panicked, gone := SweepLoop(was, vs, pos);
      if !panicked {
        EndSweep(was, vs, pos, gone);
      }
    }

    /** current->flag &= ~RUNNING or |= RUNNING, for a task at index i, or for one that has been
        taken out of the queue. */
    method SetRunning(on: bool, ghost i: int)
      requires Linked() && if 0 <= i < |queue| then current == queue[i] else current !in queue
      modifies current`flag
      ensures Linked()
      ensures View() == if 0 <= i < |queue| then old(View())[i := old(View())[i].(running := on)] else old(View())
    {
      hide Linked, States;
      if 0 <= i < |queue| {
        Alone(i);
      }
      current.flag := if on then current.flag + {RUNNING} else current.flag - {RUNNING};
    }

    lemma NextOf(p: int)
      requires Linked() && (p == 0 || 0 <= p < |queue|)
      ensures |queue| > 0 && first == queue[0] && queue[p].next == NodeAt(p + 1)
    {
      assert LinkAt(p);
    }

    lemma FromIsLast(start: int, p: int)
      requires Linked() && 0 < start <= |queue| && 0 <= p < |queue| && queue[p] == queue[start - 1]
      ensures p == start - 1
    {
      DistinctFrom(queue, p);
    }

    /** Lines 373-400: the next task that can run, in cyclic order from start. The search
        ends before it comes back to where it began, or there on a task that can run: idle
        always can. So neither way out for want of one is ever taken. */
    method FindNext(ghost start: int)
      requires Linked() && current.next == NodeAt(start) && 0 <= start <= |queue|
      requires Runnable(View()[0]) && (current in queue ==> start > 0 && current == queue[start - 1])
      modifies this`current, this`pos
      ensures Linked() && View() == old(View())
      ensures pos == Pick(View(), if start < |queue| then start else 0, |queue|) && current == NodeAt(pos) && 0 <= pos < |queue|
    {
      hide Linked, States;
      var from := current;
      ghost var r := View();
      ghost var p0 := if start < |queue| then start else 0;
      ghost var p, n := p0, |queue|;
      NextOf(0);
      while true
        invariant 0 <= p < |queue| && n == |queue| - Ahead(r, p0, p) && Ahead(r, p, 0) < n
        invariant (if current.next == null then first else current.next) == queue[p]
        invariant Pick(r, p, n) == Pick(r, p0, |queue|)
        decreases n
      {
        current := if current.next == null then first else current.next;
        assert r[p] == queue[p].State();
        if WAIT in current.flag || BUSY in current.flag {
          if current == from {
            FromIsLast(start, p);
            assert false;
          }
          NextOf(p);
          p, n := After(r, p), n - 1;
        } else {
          break;
        }
      }
      pos := p;
    }

    /** What the sweep leaves, when it began in state s with queue was. */
    lemma AfterSweep(s: Sched, was: seq<Task>, gone: bool)
      requires Shape(s) && OnlyCurStops(s) && !s.entry && pos == s.cur && gone == s.queue[s.cur].stop
      requires Linked() && View() == SweepFrom(s.queue, 0, s.now) && queue == Keep(was, pos, gone)
      requires Distinct(was) && |was| == |s.queue| && current == was[pos]
      ensures |queue| == |View()| == |Rest(s)| > 0 && 0 <= pos
      ensures if gone then current !in queue && pos <= |queue| else pos < |queue| && current == queue[pos]
      ensures Rest(s) == if gone then View() else View()[pos := View()[pos].(running := false)]
      ensures Start(s, Rest(s)) == FirstFrom(pos, gone, |queue|)
      ensures Runnable(View()[0]) && forall j :: 0 <= j < |queue| ==> queue[j] in was
    {
      RestIs(s);
      RestKeeps(s);
      DistinctFrom(was, pos);
      hide SweepFrom, Visit, Linked, PidsIncrease;
    }

    lemma InQueue(s: Sched)
      requires Linked() && current == NodeAt(pos) && s == Value() && Shape(s) && OnlyCurStops(s)
      ensures Distinct(queue) && 0 <= pos < |queue| == |s.queue| && current == queue[pos]
      ensures s.queue[pos].stop == (STOP in current.flag) && (s.queue[pos].stop ==> s.queue[pos].pid == current.pid)
    {
    }

    /** Lines 373-417. */
    method RunNext(ghost gone: bool, ghost r: seq<TaskState>)
      requires Linked() && 0 <= pos && |View()| == |queue| > 0 && Runnable(View()[0])
      requires current.next == NodeAt(if gone then pos else pos + 1)
      requires if gone then current !in queue && pos <= |queue| else pos < |queue| && current == queue[pos]
      requires r == if gone then View() else View()[pos := View()[pos].(running := false)]
      modifies this`current, this`pos, current`flag, queue
      ensures Linked() && 0 <= pos < |queue| == |r| && current == queue[pos]
      ensures pos == Pick(r, FirstFrom(old(pos), gone, |r|), |r|) && View() == r[pos := r[pos].(running := true)]
    {
      hide Linked, View, Pick;
      ghost var start := if gone then pos else pos + 1;
      SetRunning(false, if gone then -1 else pos);
      FindNext(start);
      SetRunning(true, pos);
    }

    method SweepAndChoose(ghost s: Sched, ghost was: seq<Task>) returns (res: Outcome)
      requires Linked() && current == NodeAt(pos) && s == Value() && was == queue && Shape(s) && OnlyCurStops(s) && !entry
      modifies this`current, this`last, this`queue, this`pos, was
      ensures res.Panicked? <==> s.queue[s.cur].stop && s.queue[s.cur].pid == 1
      ensures res.Returned? ==> Linked() && current == NodeAt(pos)
      ensures res.Returned? ==> var r := Rest(s);
        && pos == Pick(r, Start(s, r), |r|) && 0 <= pos < |r| && View() == r[pos := r[pos].(running := true)]
    {
      hide Shape, OnlyCurStops, Linked, Keep, FirstFrom, Start, Distinct, States, Rest, SweepFrom, Pick, View;
      InQueue(s);
      var panicked;
      ghost var gone;
      panicked, gone := Sweep();
      if panicked {
        return Panicked;
      }
      AfterSweep(s, was, gone);
      RunNext(gone, Rest(s));
      res := Returned(0);
    }

    /** x86_task_switch. It panics when the task to be taken out is pid 1. */
    method SwitchTask() returns (res: Outcome)
      requires Linked() && current == NodeAt(pos) && Shape(Value()) && OnlyCurStops(Value())
      modifies this`entry, this`current, this`last, this`queue, this`pos, queue
      ensures res.Panicked? <==> old(!entry && STOP in current.flag && current.pid == 1)
      ensures res.Returned? ==> Valid() && Value() == Switch(old(Value()))
    {
      hide Inv, Shape, OnlyCurStops, Linked, States, Rest, Pick;
      ghost var s := Value();
      InQueue(s);
      SwitchKeeps(s);
      if entry {
        entry := false;
        return Returned(0);
      }
      res := SweepAndChoose(s, queue);
    }

    // ---- interrupts and system calls

    method AdvanceClock(d: nat)
      requires Valid()
      modifies this`systime
      ensures Valid() && Value() == Step(old(Value()), Advance(d))
    {
      ghost var s := Value();
      StepKeeps(s, Advance(d));
      assert Step(s, Advance(d)) == s.(now := s.now + d);
      hide Inv, Step, Linked, View;
      systime := systime + d;
    }

    /** The timer interrupt: its own service, then the switch. */
    method Timer(d: nat) returns (res: Outcome)
      requires Valid()
      modifies this`systime, this`entry, this`current, this`last, this`queue, this`pos, queue
      ensures res.Returned? && Valid() && Value() == Step(Step(old(Value()), Advance(d)), Tick)
    {
      AdvanceClock(d);
      MarkedShape(Value(), Tick);
      StepIsSwitch(Value(), Tick);
      InQueue(Value());
      hide Inv, Shape, OnlyCurStops, Step, Switch, Linked, View;
      res := SwitchTask();
    }

    lemma Called()
      requires Valid() && 0 < pos
      ensures !entry && current.hasCtl && STOP !in current.flag
    {
      assert View()[pos] == current.State();
    }

    /** What a system call leaves in the current task's fields before it switches. */
    method SetCurrent(flag: set<Flag>, waitType: int, deadline: int, ghost op: Op)
      requires Valid() && 0 < pos && Switches(op)
      requires var t := current.State();
        Mark(t, op, systime) == t.(running := RUNNING in flag, stop := STOP in flag, wait := WAIT in flag, busy := BUSY in flag,
                                   waitType := waitType, deadline := deadline)
      modifies current`flag, current`waitType, current`deadline
      ensures Linked() && current == NodeAt(pos) && Value() == Marked(old(Value()), op)
      ensures Shape(Value()) && OnlyCurStops(Value())
      ensures current.flag == flag
    {
      CurrentListed();
      hide Linked, Inv, Shape, OnlyCurStops, States, Mark;
      ghost var s := Value();
      MarkedShape(s, op);
      Alone(pos);
      current.flag := flag;
      current.waitType := waitType;
      current.deadline := deadline;
      assert View() == s.queue[pos := current.State()];
    }

    /** nanosleep, lines 269-282 and task_set_sleep: seconds are turned into microsecond ticks
        and nanoseconds are added to them as they are. */
    method Nanosleep(sec: nat, nsec: nat) returns (res: Outcome)
      requires Valid() && 0 < pos
      modifies this`entry, this`current, this`last, this`queue, this`pos, queue
      ensures res == Returned(0) && Valid()
      ensures Value() == if sec == 0 && nsec == 0 then old(Value()) else Step(old(Value()), Sleep(sec * 1000000 + nsec))
    {
      if sec != 0 || nsec != 0 {
        ghost var op := Sleep(sec * SYSTICK_DES_RES + nsec);
        StepIsSwitch(Value(), op);
        Called();
        SetCurrent(current.flag + {WAIT}, WAIT_SLEEP, sec * SYSTICK_DES_RES + nsec + systime, op);
        res := SwitchTask();
      }
      res := Returned(0);
    }

    /** waitpid, lines 239-250. */
    method Waitpid(pid: int) returns (res: Outcome)
      requires Valid() && 0 < pos
      modifies this`entry, this`current, this`last, this`queue, this`pos, queue
      ensures res == Returned(0) && Valid() && Value() == Step(old(Value()), WaitFor(pid))
    {
      StepIsSwitch(Value(), WaitFor(pid));
      Called();
      SetCurrent({WAIT}, WAIT_PID, pid, WaitFor(pid));
      res := SwitchTask();
      res := Returned(0);
    }

    /** exit, lines 22-25, and a fault in a task with no handler, pfault.c:64-69. */
    method ExitTask() returns (res: Outcome)
      requires Valid() && 0 < pos
      modifies this`entry, this`current, this`last, this`queue, this`pos, queue
      ensures res.Panicked? <==> old(current.pid) == 1
      ensures res.Returned? ==> Valid() && Value() == Step(old(Value()), Exit)
    {
      StepIsSwitch(Value(), Exit);
      Called();
      SetCurrent(current.flag + {STOP}, current.waitType, current.deadline, Exit);
      res := SwitchTask();
    }

    /** read on a file that completes later, lines 44-46. */
    method BlockOnRead() returns (res: Outcome)
      requires Valid() && 0 < pos
      modifies this`entry, this`current, this`last, this`queue, this`pos, queue
      ensures res.Returned? && Valid() && Value() == Step(old(Value()), Block)
    {
      StepIsSwitch(Value(), Block);
      Called();
      SetCurrent(current.flag + {BUSY}, current.waitType, current.deadline, Block);
      res := SwitchTask();
    }

    method ClearWait(t: Task, ghost i: int)
      requires Linked() && 0 < i < |queue| && t == queue[i]
      modifies t`flag
      ensures Linked() && View() == old(View())[i := old(View())[i].(wait := false)]
    {
      hide Linked, States;
      Alone(i);
      if WAIT in t.flag {
        t.flag := t.flag - {WAIT};
      }
    }

    /** kill and x86_task_enter_signal: a handled signal ends a sleep or wait. */
    method Kill(pid: int) returns (res: int, ghost i: int)
      requires Valid() && pid != 0
      modifies queue
      ensures Valid()
      ensures res == -1 <==> !HasPid(old(Value()).queue, pid)
      ensures res == -1 ==> Value() == old(Value())
      ensures res != -1 ==>
        && res == 0 && 0 < i < |queue| && old(Value()).queue[i].pid == pid
        && Value() == Step(old(Value()), Signal(i, queue[i].handles))
        && Value().queue[i].wait == (old(Value()).queue[i].wait && !queue[i].handles)
    {
      hide Linked, Inv, Step, States, HasPid;
      CurrentListed();
      var t := TaskByPid(pid);
      i := 0;
      if t == null {
        return -1, 0;
      }
      i :| 0 <= i < |queue| && queue[i] == t;
      NotIdle(i);
      SignalIs(Value(), i, t.handles);
      if t.handles {
        ClearWait(t, i);
      }
      res := 0;
    }
  }
}

/** kernel/pc/pc.c: the scheduler with its lists, step by step. Each operation turns the snapshot of its fields into
    the one that the function of the same name in module Steps says; that those keep everything in order is proved
    there. */
module Scheduler {
  import opened Wrappers
  import opened Sequences
  import opened Queues
  import opened Steps
  import opened Pid

  class Scheduler {
    var rec: seq<Task>         // the task structures, in the order of their creation
    var tasks: seq<nat>
    var sched: seq<nat>
    var back: seq<seq<nat>>    // sched_back[1..3]; entry 0 is never used
    var wait: seq<nat>
    var exited: seq<nat>
    var current: nat
    const pids: PidMap

    ghost predicate Valid()
      reads this, pids, pids.bits
    {
      |back| == 4 && pids.Valid()
    }

    ghost function Snap(): State
      requires |back| == 4
      reads this, pids, pids.bits
    {
      State(rec, tasks, [sched, back[1], back[2], back[3], wait, exited], current, pids.Used(), pids.nextPid)
    }

    /** init_pc */
    constructor ()
      ensures Valid() && fresh(pids) && fresh(pids.bits) && Snap() == Booted() && Inv(Snap())
    {
      pids := new PidMap();
      rec := [Task(IDLE_PID, IDLE_PID, S_READY, CNT_LV0, 0)];
      tasks, sched, back, wait, exited, current := [0], [0], [[], [], [], []], [], [], 0;
      new;
      BootedIsInOrder();
    }

    /** remove_sched */
    method RemoveSched(x: nat)
      requires Valid()
      modifies this`sched, this`back, this`wait, this`exited
      ensures Valid() && Snap() == Unqueued(old(Snap()), x)
    {
      sched := Without(sched, x);
      back := [back[0], Without(back[1], x), Without(back[2], x), Without(back[3], x)];
      wait := Without(wait, x);
      exited := Without(exited, x);
    }

    /** add_sched_back; the level is one of the three there are. */
    method AddSchedBack(x: nat, level: nat)
      requires Valid() && 1 <= level <= 3
      modifies this`back
      ensures Valid() && Snap() == Queues.Appended(old(Snap()), level, x)
    {
      back := back[level := back[level] + [x]];
      assert Snap().q == old(Snap()).q[level := old(Snap()).q[level] + [x]];
    }

    /** The search of one list in find_in_sched_back. */
    method FirstReadyIn(q: seq<nat>) returns (r: Option<nat>)
      requires forall x :: x in q ==> x < |rec|
      ensures r == FirstReady(rec, q)
    {
      var i := 0;
      while i < |q|
        invariant 0 <= i <= |q| && FirstReady(rec, q) == FirstReady(rec, q[i..])
      {
        assert q[i] in q;
        if rec[q[i]].state == S_READY {
          return Some(q[i]);
        }
        i := i + 1;
      }
      r := None;
    }

    /** find_in_sched_back */
    method FindInSchedBack() returns (r: Option<nat>)
      requires Valid() && InBounds(Snap())
      ensures r == FindBack(Snap())
    {
      r := None;
      var i := 1;
      while i <= 3
        invariant 1 <= i <= 4 && r == None
        invariant forall k :: 1 <= k < i ==> FirstReady(rec, back[k]).None?
      {
        assert Snap().q[i] == back[i];
        r := FirstReadyIn(back[i]);
        if r.Some? {
          return;
        }
        i := i + 1;
      }
    }

    /** find_next_task: the current task of level 1 or 2 pays for its turn; then the next task is chosen. */
    method FindNextTask() returns (next: nat)
      requires Valid() && InBounds(Snap())
      modifies this`rec, this`sched, this`back, this`wait, this`exited
      ensures Valid() && Snap() == Turned(old(Snap())) && next == Choice(old(Snap()))
    {
      ghost var s := Snap();
      if rec[current].level == 0 {
        var i := Pos(sched, current);
        if i + 1 < |sched| {
          next := sched[i + 1];
        } else {
          var found := FindInSchedBack();
          next := if found.Some? then found.value else sched[0];
        }
      } else {
        next := sched[0];
        if rec[current].level < 3 {
          var t := rec[current];
          RemoveSched(current);
          rec := rec[current := Charged(t)];
          AddSchedBack(current, rec[current].level);
          assert Snap() == Turned(s);
        }
      }
    }

    /** clear_exited: everything that has ended is reaped. */
    method ClearExited()
      requires Valid()
      modifies this`tasks, this`exited
      ensures Valid() && Snap() == Cleared(old(Snap()))
    {
      while exited != []
        invariant Valid() && Dropped(tasks, exited) == Dropped(old(tasks), old(exited))
        decreases |exited|
      {
        tasks := Without(tasks, exited[0]);
        exited := exited[1..];
      }
    }

    /** pc_schedule; `hung` when it finds nobody else to run, in which case the original never returns. */
    method Schedule() returns (hung: bool)
      requires Valid() && Inv(Snap())
      modifies this
      ensures Valid() && Runnable(old(Snap())) && hung == Hangs(old(Snap()))
      ensures !hung ==> Snap() == Tick(old(Snap()))
    {
      ghost var s := Snap();
      TickKeeps(s);
      ClearedKeeps(s);
      ClearExited();
      InRange(Snap(), Snap());
      var next := FindNextTask();
      hung := next == current;
      if !hung {
        current := next;
      }
    }

    /** The search of waitpid: the first process alive with the number. */
    method FindAlive(p: nat) returns (r: Option<nat>)
      requires forall x :: x in tasks ==> x < |rec|
      ensures r == FindLive(rec, tasks, p)
    {
      var i := 0;
      while i < |tasks|
        invariant 0 <= i <= |tasks| && FindLive(rec, tasks, p) == FindLive(rec, tasks[i..], p)
      {
        assert tasks[i] in tasks;
        if rec[tasks[i]].pid == p && rec[tasks[i]].state != S_TERMINAL {
          return Some(tasks[i]);
        }
        i := i + 1;
      }
      r := None;
    }

    /** waitpid */
    method WaitPid(p: nat)
      requires Valid() && Inv(Snap())
      modifies this
      ensures Valid() && Runnable(old(Snap())) && Snap() == Wait(old(Snap()), p)
    {
      ghost var s := Snap();
      WaitKeeps(s, p);
      var child := FindAlive(p);
      if child.None? || rec[child.value].parent != rec[current].pid {
        return;
      }
      rec := rec[current := rec[current].(state := WaitingFor(p))];
      InRange(s, Snap());
      Leave(WAIT);
    }

    /** The common end of waitpid and pc_exit: the next task is found before the current one is unlinked. */
    method Leave(k: nat)
      requires Valid() && InBounds(Snap()) && (k == WAIT || k == EXITED)
      modifies this`rec, this`sched, this`back, this`wait, this`exited, this`current
      ensures Valid() && Snap() == Gone(old(Snap()), k)
    {
      ghost var s := Snap();
      var next := FindNextTask();
      RemoveSched(current);
      if k == WAIT {
        wait := wait + [current];
      } else {
        exited := exited + [current];
      }
      current := next;
      assert Snap().q == Gone(s, k).q;
    }

    /** The search of wakeup_parent. */
    method FindWaiting(p: nat, c: nat) returns (r: Option<nat>)
      requires forall x :: x in wait ==> x < |rec|
      ensures r == FindWaiter(rec, wait, p, c)
    {
      var i := 0;
      while i < |wait|
        invariant 0 <= i <= |wait| && FindWaiter(rec, wait, p, c) == FindWaiter(rec, wait[i..], p, c)
      {
        assert wait[i] in wait;
        if rec[wait[i]].pid == p && rec[wait[i]].state == WaitingFor(c) {
          return Some(wait[i]);
        }
        i := i + 1;
      }
      r := None;
    }

    /** wakeup_parent */
    method WakeupParent()
      requires Valid() && Runnable(Snap())
      requires forall x :: x in wait ==> x < |rec| && rec[x].level <= 3
      modifies this`rec, this`sched, this`back, this`wait, this`exited
      ensures Valid() && Snap() == Woken(old(Snap()))
    {
      ghost var s := Snap();
      var w := FindWaiting(rec[current].parent, rec[current].pid);
      if w.Some? {
        var next := w.value;
        RemoveSched(next);
        if rec[next].level == 0 {
          sched := sched + [next];
        } else {
          back := back[rec[next].level := [next] + back[rec[next].level]];
        }
        rec := rec[next := rec[next].(state := S_READY)];
        assert Snap().q == Woken(s).q;
      }
    }

    /** pc_exit, up to the change of context; `stopped` when idle calls it, in which case the original never returns. */
    method PcExit() returns (stopped: bool)
      requires Valid() && Inv(Snap())
      modifies this, pids, pids.bits
      ensures Valid() && Runnable(old(Snap())) && Runnable(Woken(old(Snap())))
      ensures Snap() == Exit(old(Snap())) && stopped == (old(current) == 0)
    {
      OnlyIdleHasZero(Snap());
      ExitKeeps(Snap());
      stopped := rec[current].pid == IDLE_PID;
      if !stopped {
        End();
      }
    }

    /** What pc_exit does for every other process. */
    method End()
      requires Valid() && Inv(Snap()) && current != 0
      modifies this, pids, pids.bits
      ensures Valid() && Runnable(old(Snap())) && Runnable(Woken(old(Snap())))
      ensures Snap() == Exit(old(Snap()))
    {
      ghost var s := Snap();
      OnlyIdleHasZero(s);
      ExitIsReady(s);
      var cur := current;
      rec := rec[cur := rec[cur].(state := S_TERMINAL)];
      assert Snap() == WithTask(s, cur, s.rec[cur].(state := S_TERMINAL));
      WakeupParent();
      Leave(EXITED);
      var _ := pids.Free(rec[cur].pid);
    }

    /** What pc_exit relies on along its way. */
    lemma ExitIsReady(s: State)
      requires Inv(s) && s.current != 0
      ensures Runnable(s) && Runnable(Woken(s))
      ensures forall x :: x in s.q[WAIT] ==> x < |s.rec| && s.rec[x].level <= 3 && x != s.current
      ensures var t := s.rec[s.current].(state := S_TERMINAL);
        var a, b := WithTask(s, s.current, t), WithTask(Woken(s), s.current, t);
        && Runnable(a) && Woken(a) == b && InBounds(b)
        && Turned(b).rec[s.current].pid == t.pid
    {
      WokenKeeps(s);
      WaitersInRange(s);
      EndedAndWoken(s);
      InRange(Woken(s), WithTask(Woken(s), s.current, s.rec[s.current].(state := S_TERMINAL)));
    }

    lemma WaitersInRange(s: State)
      requires Inv(s)
      ensures forall x :: x in s.q[WAIT] ==> x < |s.rec| && s.rec[x].level <= 3 && x != s.current
    {
      forall x | x in s.q[WAIT] ensures x < |s.rec| && s.rec[x].level <= 3 && x != s.current {
        assert Agrees(s, WAIT) && TaskOk(s.rec[x]);
      }
    }

    /** pc_kill */
    method PcKill(p: nat) returns (ok: bool)
      requires Valid() && Inv(Snap())
      modifies this, pids.bits
      ensures Valid() && Runnable(old(Snap())) && ok == Kills(old(Snap()), p) && Snap() == Kill(old(Snap()), p)
    {
      ghost var s := Snap();
      KillKeepsExactlyWhenFirstIsAlive(s, p);
      ok := false;
      if p == IDLE_PID || p == INIT_PID || p == rec[current].pid {
        return;
      }
      ok := pids.Check(p);
      if ok {
        var task := FindInTasks(p);
        var x := task.value;
        RemoveSched(x);
        rec := rec[x := rec[x].(state := S_TERMINAL)];
        exited := exited + [x];
        var _ := pids.Free(p);
        assert Snap() == Kill(s, p);
      }
    }

    /** find_in_tasks */
    method FindInTasks(p: nat) returns (r: Option<nat>)
      requires forall x :: x in tasks ==> x < |rec|
      ensures r == FindPid(rec, tasks, p)
    {
      var i := 0;
      while i < |tasks|
        invariant 0 <= i <= |tasks| && FindPid(rec, tasks, p) == FindPid(rec, tasks[i..], p)
      {
        assert tasks[i] in tasks;
        if rec[tasks[i]].pid == p {
          return Some(tasks[i]);
        }
        i := i + 1;
      }
      r := None;
    }

    /** task_create; `memory` says whether kmalloc finds room for the task structure. */
    method TaskCreate(memory: bool) returns (ok: bool, p: nat)
      requires Valid() && Inv(Snap())
      modifies this, pids, pids.bits
      ensures Valid() && Runnable(old(Snap())) && Snap() == Create(old(Snap()), memory)
      ensures ok == (memory && FirstFree(old(Snap()).used, old(Snap()).nextPid, PID_NUM).Some?)
      ensures ok ==> FirstFree(old(Snap()).used, old(Snap()).nextPid, PID_NUM) == Some(p)
    {
      ghost var s := Snap();
      InvIsRunnable(s);
      ok, p := pids.Alloc();
      if !ok {
        return;
      }
      if !memory {
        var _ := pids.Free(p);
        assert pids.Used() == s.used;
        return false, 0;
      }
      Enlist(p);
    }

    /** The new task structure goes to the tail of `tasks` and of its queue. */
    method Enlist(p: nat)
      requires Valid() && current < |rec|
      modifies this`rec, this`tasks, this`sched, this`back
      ensures Valid()
      ensures var s := old(Snap());
        var level := if p == INIT_PID then 0 else 1;
        var t := Task(p, s.rec[s.current].pid, S_READY, if level == 0 then CNT_LV0 else CNT_BASE, level);
        Snap() == Queues.Appended(s.(rec := s.rec + [t], tasks := s.tasks + [|s.rec|]), level, |s.rec|)
    {
      var level := if p == INIT_PID then 0 else 1;
      var x := |rec|;
      rec := rec + [Task(p, rec[current].pid, S_READY, if level == 0 then CNT_LV0 else CNT_BASE, level)];
      tasks := tasks + [x];
      if level == 0 {
        sched := sched + [x];
        assert Snap().q == old(Snap()).q[0 := old(Snap()).q[0] + [x]];
      } else {
        AddSchedBack(x, level);
      }
    }
  }

  /** What find_next_task needs. */
  ghost predicate InBounds(a: State) {
    && Runnable(a) && a.rec[a.current].level <= 3
    && forall k, x: nat {:trigger x in a.q[k]} :: 1 <= k <= 3 && x in a.q[k] ==> x < |a.rec|
  }

  lemma InRange(s: State, a: State)
    requires Inv(s) && a.q == s.q && |a.rec| == |s.rec| && a.current == s.current
    requires a.rec[s.current].level == s.rec[s.current].level
    ensures InBounds(a)
  {
    InvIsRunnable(s);
    assert TaskOk(s.rec[s.current]);
    forall k, x: nat | 1 <= k <= 3 && x in a.q[k] ensures x < |a.rec| {
      assert Agrees(s, k);
    }
  }

  /** Whether the current task is marked as ended before or after its parent is woken makes no difference. */
  lemma EndedAndWoken(s: State)
    requires Inv(s) && Runnable(s)
    ensures var a := WithTask(s, s.current, s.rec[s.current].(state := S_TERMINAL));
      Runnable(a) && Woken(a) == WithTask(Woken(s), s.current, s.rec[s.current].(state := S_TERMINAL))
  {
    var cur := s.current;
    var t := s.rec[cur].(state := S_TERMINAL);
    var a := WithTask(s, cur, t);
    assert Agrees(s, WAIT);
    FindWaiterSame(s.rec, a.rec, s.q[WAIT], t.parent, t.pid);
    var w := FindWaiter(s.rec, s.q[WAIT], t.parent, t.pid);
    if w.Some? {
      var u := s.rec[w.value].(state := S_READY);
      assert s.rec[cur := t][w.value := u] == s.rec[w.value := u][cur := t];
    }
  }

  lemma {:induction false} FindWaiterSame(rec: seq<Task>, rec': seq<Task>, q: seq<nat>, p: nat, c: nat)
    requires |rec| == |rec'| && forall x :: x in q && x < |rec| ==> rec'[x] == rec[x]
    ensures FindWaiter(rec', q, p, c) == FindWaiter(rec, q, p, c)
  {
    if q == [] {
    } else {
      FindWaiterSame(rec, rec', q[1..], p, c);
    }
  }
}

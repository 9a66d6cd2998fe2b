/** What each operation of kernel/pc/pc.c does to the queues, and that it keeps them in order. */
module Steps {
  import opened Wrappers
  import opened Sequences
  import opened Queues

  // ---------------------------------------------------------------- choosing the next task

  function FirstReady(rec: seq<Task>, q: seq<nat>): (r: Option<nat>)
    ensures r.Some? ==> r.value in q && r.value < |rec| && rec[r.value].state == S_READY
    ensures r.None? ==> forall x :: x in q && x < |rec| ==> rec[x].state != S_READY
  {
    if q == [] then None
    else if q[0] < |rec| && rec[q[0]].state == S_READY then Some(q[0])
    else FirstReady(rec, q[1..])
  }

  /** find_in_sched_back: the first ready task of the lowest level that has one. */
  function FindBack(s: State): Option<nat>
    requires |s.q| == 6
  {
    if FirstReady(s.rec, s.q[1]).Some? then FirstReady(s.rec, s.q[1])
    else if FirstReady(s.rec, s.q[2]).Some? then FirstReady(s.rec, s.q[2])
    else FirstReady(s.rec, s.q[3])
  }

  predicate Runnable(s: State) {
    |s.q| == 6 && s.current < |s.rec| && s.q[0] != []
  }

  /** The task that find_next_task returns. */
  function Choice(s: State): nat
    requires Runnable(s)
  {
    if s.rec[s.current].level == 0 then
      var i := Pos(s.q[0], s.current);
      if i + 1 < |s.q[0]| then s.q[0][i + 1]
      else if FindBack(s).Some? then FindBack(s).value else s.q[0][0]
    else s.q[0][0]
  }

  /** One count used up, of 32 bits; at zero the task drops one level and gets that level's allowance. */
  function Charged(t: Task): Task {
    var c := if t.count == 0 then 0xffff_ffff else t.count - 1;
    if c == 0 then t.(level := t.level + 1, count := CNT_BASE * (t.level + 1)) else t.(count := c)
  }

  /** What find_next_task does to a current task of level 1 or 2: charge it and put it at the tail of its level. */
  function Turned(s: State): State
    requires Runnable(s)
  {
    var t := s.rec[s.current];
    if 0 < t.level < 3 then
      Queues.Appended(WithTask(Unqueued(s, s.current), s.current, Charged(t)), Charged(t).level, s.current)
    else s
  }

  // ---------------------------------------------------------------- the operations

  /** Removing every member of gone, one after the other. */
  function Dropped(q: seq<nat>, gone: seq<nat>): (r: seq<nat>)
    ensures forall y :: y in r <==> y in q && y !in gone
    decreases |gone|
  {
    if gone == [] then q else Dropped(Without(q, gone[0]), gone[1..])
  }

  /** clear_exited */
  function Cleared(s: State): State
    requires |s.q| == 6
  {
    s.(tasks := Dropped(s.tasks, s.q[EXITED]), q := s.q[EXITED := []])
  }

  /** pc_schedule stops the machine when the task found is the one that is running. */
  predicate Hangs(s: State)
    requires Runnable(s)
  {
    Choice(Cleared(s)) == s.current
  }

  /** pc_schedule */
  function Tick(s: State): State
    requires Runnable(s)
  {
    Turned(Cleared(s)).(current := Choice(Cleared(s)))
  }

  /** The first process alive with number p, in the order of `tasks`. */
  function FindLive(rec: seq<Task>, tasks: seq<nat>, p: nat): (r: Option<nat>)
    ensures r.Some? ==> r.value in tasks && r.value < |rec| && rec[r.value].pid == p && rec[r.value].state != S_TERMINAL
    ensures r.None? ==> forall x :: x in tasks && x < |rec| && rec[x].pid == p ==> rec[x].state == S_TERMINAL
  {
    if tasks == [] then None
    else if tasks[0] < |rec| && rec[tasks[0]].pid == p && rec[tasks[0]].state != S_TERMINAL then Some(tasks[0])
    else FindLive(rec, tasks[1..], p)
  }

  /** The first process with number p, alive or not. */
  function FindPid(rec: seq<Task>, tasks: seq<nat>, p: nat): (r: Option<nat>)
    ensures r.Some? ==> r.value in tasks && r.value < |rec| && rec[r.value].pid == p
    ensures r.None? ==> forall x :: x in tasks && x < |rec| ==> rec[x].pid != p
  {
    if tasks == [] then None
    else if tasks[0] < |rec| && rec[tasks[0]].pid == p then Some(tasks[0])
    else FindPid(rec, tasks[1..], p)
  }

  /** waitpid goes to sleep only for a living child of the caller. */
  predicate Sleeps(s: State, p: nat)
    requires Runnable(s)
  {
    FindLive(s.rec, s.tasks, p).Some? && s.rec[FindLive(s.rec, s.tasks, p).value].parent == s.rec[s.current].pid
  }

  /** The current task leaves for queue k; find_next_task is asked first. */
  function Gone(a: State, k: nat): State
    requires Runnable(a) && k < 6
  {
    Queues.Appended(Unqueued(Turned(a), a.current), k, a.current).(current := Choice(a))
  }

  /** The same, its record now t. */
  function Left(s: State, t: Task, k: nat): State
    requires Runnable(s) && k < 6
  {
    Gone(WithTask(s, s.current, t), k)
  }

  /** waitpid */
  function Wait(s: State, p: nat): State
    requires Runnable(s)
  {
    if Sleeps(s, p) then Left(s, s.rec[s.current].(state := WaitingFor(p)), WAIT) else s
  }

  /** The first task of q with number p that waits for number c. */
  function FindWaiter(rec: seq<Task>, q: seq<nat>, p: nat, c: nat): (r: Option<nat>)
    ensures r.Some? ==> r.value in q && r.value < |rec| && rec[r.value].pid == p && rec[r.value].state == WaitingFor(c)
    ensures r.None? ==> forall x :: x in q && x < |rec| ==> rec[x].pid != p || rec[x].state != WaitingFor(c)
  {
    if q == [] then None
    else if q[0] < |rec| && rec[q[0]].pid == p && rec[q[0]].state == WaitingFor(c) then Some(q[0])
    else FindWaiter(rec, q[1..], p, c)
  }

  /** wakeup_parent: to the tail of the foreground or to the head of its background level. */
  function Woken(s: State): (r: State)
    requires Runnable(s)
  {
    var t := s.rec[s.current];
    var w := FindWaiter(s.rec, s.q[WAIT], t.parent, t.pid);
    if w.None? then s
    else
      var x := w.value;
      var level := s.rec[x].level;
      var u := WithTask(Unqueued(s, x), x, s.rec[x].(state := S_READY));
      if level == 0 then Queues.Appended(u, 0, x) else if level <= 3 then Prepended(u, level, x) else u
  }

  /** pc_exit, which refuses idle. */
  function Exit(s: State): State
    requires Runnable(s) && Runnable(Woken(s))
  {
    if s.rec[s.current].pid == IDLE_PID then s
    else Left(Woken(s), s.rec[s.current].(state := S_TERMINAL), EXITED).(used := s.used - {s.rec[s.current].pid})
  }

  /** pc_kill refuses idle, the shell, the caller and numbers not in use. */
  predicate Kills(s: State, p: nat)
    requires Runnable(s)
  {
    p != IDLE_PID && p != INIT_PID && p != s.rec[s.current].pid && p in s.used
  }

  /** pc_kill */
  function Kill(s: State, p: nat): State
    requires Runnable(s)
  {
    var f := FindPid(s.rec, s.tasks, p);
    if Kills(s, p) && f.Some? then
      var x := f.value;
      Queues.Appended(WithTask(Unqueued(s, x), x, s.rec[x].(state := S_TERMINAL)), EXITED, x).(used := s.used - {p})
    else s
  }

  /** pid_alloc: the first free number from `from` on, going round. */
  function FirstFree(used: set<nat>, from: nat, tries: nat): (r: Option<nat>)
    requires from < PID_NUM
    ensures r.Some? ==> r.value < PID_NUM && r.value !in used
    decreases tries
  {
    if tries == 0 then None
    else if from !in used then Some(from)
    else FirstFree(used, (from + 1) % PID_NUM, tries - 1)
  }

  /** task_create; `memory` says whether kmalloc finds room. */
  function Create(s: State, memory: bool): State
    requires Runnable(s) && s.nextPid < PID_NUM
  {
    var f := FirstFree(s.used, s.nextPid, PID_NUM);
    if f.None? then s
    else
      var next := s.(nextPid := (f.value + 1) % PID_NUM);
      if memory then
        var level := if f.value == INIT_PID then 0 else 1;
        var t := Task(f.value, s.rec[s.current].pid, S_READY, if level == 0 then CNT_LV0 else CNT_BASE, level);
        Queues.Appended(
          next.(rec := s.rec + [t], tasks := s.tasks + [|s.rec|], used := s.used + {f.value}), level, |s.rec|)
      else next
  }

  // ---------------------------------------------------------------- they keep the queues in order

  /** Where the current task is on the level its record says, and every queued task is ready. */
  lemma QueuedAreReady(s: State, k: nat, x: nat)
    requires QueuesOk(s) && k <= 3 && x in s.q[k]
    ensures x in s.tasks && s.rec[x].state == S_READY && s.rec[x].level == k
  {
    assert Agrees(s, k) && TaskOk(s.rec[x]);
  }

  /** In good order the search of the background finds the head of the lowest level that is not empty. */
  lemma FindBackIs(s: State)
    requires QueuesOk(s)
    ensures FindBack(s) == if s.q[1] != [] then Some(s.q[1][0]) else if s.q[2] != [] then Some(s.q[2][0])
                           else if s.q[3] != [] then Some(s.q[3][0]) else None
  {
    forall k | 1 <= k <= 3 && s.q[k] != [] ensures FirstReady(s.rec, s.q[k]) == Some(s.q[k][0]) {
      QueuedAreReady(s, k, s.q[k][0]);
    }
  }

  /** The task chosen is a ready one from queues 0 to 3. */
  lemma ChoiceIsReady(s: State)
    requires QueuesOk(s) && Runnable(s)
    ensures Choice(s) in s.tasks && Home(s.rec[Choice(s)]) <= 3 && s.rec[Choice(s)].state == S_READY
  {
    FindBackIs(s);
    var n := Choice(s);
    var k := if n in s.q[0] then 0 else if n in s.q[1] then 1 else if n in s.q[2] then 2 else 3;
    QueuedAreReady(s, k, n);
  }

  lemma ChargedIsOk(t: Task)
    requires TaskOk(t) && 0 < t.level < 3
    ensures TaskOk(Charged(t)) && Charged(t).pid == t.pid && Charged(t).state == t.state
    ensures t.count > 0 && t.level <= Charged(t).level <= 3
  {
  }

  lemma {:induction false} DroppedNoDup(q: seq<nat>, gone: seq<nat>)
    requires NoDup(q)
    ensures NoDup(Dropped(q, gone))
    decreases |gone|
  {
    if gone == [] {
    } else {
      WithoutNoDup(q, gone[0]);
      DroppedNoDup(Without(q, gone[0]), gone[1..]);
    }
  }

  lemma ClearedKeeps(s: State)
    requires Inv(s)
    ensures Inv(Cleared(s)) && Runnable(Cleared(s)) && Cleared(s).q[EXITED] == []
  {
    var c := Cleared(s);
    assert Agrees(s, EXITED) && Agrees(s, 0);
    DroppedNoDup(s.tasks, s.q[EXITED]);
    forall k | 0 <= k < 6 ensures Agrees(c, k) {
      assert Agrees(s, k);
    }
    forall p: nat, x: nat ensures Owner(c, p, x) <==> Owner(s, p, x) {
    }
    forall p: nat | p in c.used ensures exists x: nat :: Owner(c, p, x) {
      var x: nat :| Owner(s, p, x);
      assert Owner(c, p, x);
    }
  }

  lemma TurnedKeeps(s: State)
    requires Inv(s) && Runnable(s)
    ensures Inv(Turned(s)) && Turned(s).tasks == s.tasks
    ensures Turned(s).q[0] == s.q[0] && Turned(s).q[EXITED] == s.q[EXITED]
    ensures |Turned(s).rec| == |s.rec| && forall x :: 0 <= x < |s.rec| ==> Turned(s).rec[x].state == s.rec[x].state
  {
    var t := s.rec[s.current];
    if 0 < t.level < 3 {
      assert TaskOk(t) && Agrees(s, 0) && Agrees(s, WAIT) && Agrees(s, EXITED);
      ChargedIsOk(t);
      MoveKeepsQueues(s, Turned(s), s.current, Charged(t));
      MoveKeepsPids(s, Turned(s), s.current, Charged(t));
    }
  }

  /** Handing the processor to any ready task keeps everything in order. */
  lemma SwitchKeeps(s: State, n: nat)
    requires Inv(s) && n in s.tasks && s.rec[n].state == S_READY
    ensures Inv(s.(current := n))
  {
    var r := s.(current := n);
    assert TaskOk(s.rec[n]);
    forall k | 0 <= k < 6 ensures Agrees(r, k) {
      assert Agrees(s, k);
    }
    forall p: nat, x: nat ensures Owner(r, p, x) <==> Owner(s, p, x) {
    }
    forall p: nat | p in r.used ensures exists x: nat :: Owner(r, p, x) {
      var x: nat :| Owner(s, p, x);
      assert Owner(r, p, x);
    }
  }

  lemma InvIsRunnable(s: State)
    requires Inv(s)
    ensures Runnable(s)
  {
    assert Agrees(s, 0);
  }

  /** pc_schedule keeps everything in order. */
  lemma TickKeeps(s: State)
    requires Inv(s)
    ensures Runnable(s) && Inv(Tick(s)) && Tick(s).q[EXITED] == []
  {
    InvIsRunnable(s);
    ClearedKeeps(s);
    var c := Cleared(s);
    TurnedKeeps(c);
    ChoiceIsReady(c);
    SwitchKeeps(Turned(c), Choice(c));
  }

  /** The machine stops exactly when the running task is the only one in the foreground and nothing else is ready. */
  lemma HangsExactlyWhenAlone(s: State)
    requires Inv(s)
    ensures Runnable(s)
    ensures Hangs(s) <==> s.q[0] == [s.current] && s.q[1] == [] && s.q[2] == [] && s.q[3] == []
  {
    InvIsRunnable(s);
    ClearedKeeps(s);
    FindBackIs(Cleared(s));
    NextIsOther(s, Cleared(s));
  }

  /** With another task in the foreground, or a ready one in the background, the choice is not the current task.
      The record of the current task may have changed in everything but its level. */
  lemma NextIsOther(s: State, a: State)
    requires Inv(s) && Runnable(a) && a.current == s.current
    requires |a.rec| == |s.rec| && a.rec[s.current].level == s.rec[s.current].level
    requires forall x :: 0 <= x < |s.rec| && x != s.current ==> a.rec[x] == s.rec[x]
    requires forall k :: 0 <= k <= 3 ==> a.q[k] == s.q[k]
    ensures Choice(a) == s.current <==> s.q[0] == [s.current] && s.q[1] == [] && s.q[2] == [] && s.q[3] == []
    ensures Choice(a) != s.current ==> Choice(a) in s.tasks && s.rec[Choice(a)].state == S_READY
  {
    var cur := s.current;
    assert TaskOk(s.rec[cur]) && Agrees(s, 0) && Agrees(s, 1) && Agrees(s, 2) && Agrees(s, 3);
    if s.rec[cur].level == 0 {
      SameReady(s, a);
      FindBackIs(s);
      var i := Pos(s.q[0], cur);
      if i + 1 < |s.q[0]| {
        NoDupIndices(s.q[0], i, i + 1);
        QueuedAreReady(s, 0, s.q[0][i + 1]);
      } else {
        PosOf(s.q[0], 0);
        QueuedAreReady(s, 0, s.q[0][0]);
        ChoiceIsReady(s);
      }
    } else {
      QueuedAreReady(s, 0, s.q[0][0]);
    }
  }

  lemma SameReady(s: State, a: State)
    requires Inv(s) && |a.q| == 6 && |a.rec| == |s.rec| && s.rec[s.current].level == 0
    requires forall x :: 0 <= x < |s.rec| && x != s.current ==> a.rec[x] == s.rec[x]
    requires forall k :: 0 <= k <= 3 ==> a.q[k] == s.q[k]
    ensures FindBack(a) == FindBack(s)
  {
    forall k | 1 <= k <= 3 ensures FirstReady(a.rec, a.q[k]) == FirstReady(s.rec, s.q[k]) {
      assert Agrees(s, k);
      FirstReadySame(s.rec, a.rec, s.q[k]);
    }
  }

  lemma {:induction false} FirstReadySame(rec: seq<Task>, rec': seq<Task>, q: seq<nat>)
    requires |rec| == |rec'| && forall x :: x in q && x < |rec| ==> rec'[x] == rec[x]
    ensures FirstReady(rec', q) == FirstReady(rec, q)
  {
    if q == [] {
    } else {
      FirstReadySame(rec, rec', q[1..]);
    }
  }

  // ---------------------------------------------------------------- leaving the processor

  /** The queues after the current task has left: it is at the tail of its new queue and nowhere else. */
  lemma LeavingMoves(s: State, t: Task)
    requires Inv(s) && Runnable(s) && t.level == s.rec[s.current].level && t.count == s.rec[s.current].count
    requires WAIT <= Home(t) <= EXITED && TaskOk(t)
    ensures var t' := if 0 < t.level < 3 then Charged(t) else t;
      Moved(s, Left(s, t, Home(t)), s.current, t') && TaskOk(t') && t'.pid == t.pid && t'.state == t.state
  {
    var cur := s.current;
    var a := WithTask(s, cur, t);
    forall k | 0 <= k < 6 ensures Without(Turned(a).q[k], cur) == Without(s.q[k], cur) {
      WithoutTwice(s.q[k], cur);
      WithoutAppended(Without(s.q[k], cur), cur);
    }
    if 0 < t.level < 3 {
      ChargedIsOk(t);
      assert Turned(a).rec == s.rec[cur := Charged(t)];
    }
  }

  lemma IdleStays(s: State, s': State, x: nat, t: Task)
    requires IdleOk(s) && x != 0 && Moved(s, s', x, t)
    ensures IdleOk(s')
  {
  }

  /** The shape of both waitpid and pc_exit. */
  lemma LeavingKeeps(s: State, t: Task)
    requires Inv(s) && Runnable(s) && s.current != 0
    requires t.level == s.rec[s.current].level && t.count == s.rec[s.current].count && t.pid == s.rec[s.current].pid
    requires WAIT <= Home(t) <= EXITED && TaskOk(t)
    ensures var r := Left(s, t, Home(t)); QueuesOk(r) && IdleOk(r) && r.current != s.current
    ensures var r := Left(s, t, Home(t)); r.current in r.tasks && r.rec[r.current].state == S_READY
  {
    LeavingMoves(s, t);
    var t' := if 0 < t.level < 3 then Charged(t) else t;
    MoveKeepsQueues(s, Left(s, t, Home(t)), s.current, t');
    IdleStays(s, Left(s, t, Home(t)), s.current, t');
    NextIsOther(s, WithTask(s, s.current, t));
  }

  /** waitpid keeps everything in order exactly when it is not idle that goes to sleep: idle would leave the
      foreground. */
  lemma WaitKeeps(s: State, p: nat)
    requires Inv(s)
    ensures Runnable(s)
    ensures Inv(Wait(s, p)) <==> !(s.current == 0 && Sleeps(s, p))
    ensures Sleeps(s, p) ==>
      s.current in Wait(s, p).q[WAIT] && forall k :: 0 <= k <= 3 ==> s.current !in Wait(s, p).q[k]
    ensures Sleeps(s, p) && s.current != 0 ==> Wait(s, p).current != s.current
  {
    InvIsRunnable(s);
    if Sleeps(s, p) && s.current != 0 {
      OnlyIdleIsItsChild(s, p);
      var t := s.rec[s.current].(state := WaitingFor(p));
      assert TaskOk(s.rec[s.current]);
      LeavingKeeps(s, t);
      LeavingMoves(s, t);
      MoveKeepsPids(s, Left(s, t, Home(t)), s.current, if 0 < t.level < 3 then Charged(t) else t);
      assert TaskOk(Wait(s, p).rec[Wait(s, p).current]);
    }
  }

  /** Idle waiting for the shell. */
  lemma IdleCanGoToSleep()
    ensures var s := WithShell(0); Inv(s) && Runnable(s) && s.current == 0 && Sleeps(s, 1) && !Inv(Wait(s, 1))
  {
    var r, ops := ShellIsReached();
    AlwaysInOrder(r, ops, |ops|);
    var s := WithShell(0);
    var t := s.tasks;
    assert FindLive(s.rec, [1], 1) == Some(1);
    assert t[1..] == [1] && FindLive(s.rec, t, 1) == Some(1);
    WaitKeeps(s, 1);
  }

  /** No task but idle has a child with number 0. */
  lemma OnlyIdleIsItsChild(s: State, p: nat)
    requires Inv(s) && s.current != 0 && Runnable(s) && Sleeps(s, p)
    ensures p > 0
  {
    if p == 0 {
      assert Agrees(s, 0) && Home(s.rec[0]) == 0;
      var x := FindLive(s.rec, s.tasks, 0).value;
      assert Owner(s, 0, x) && Owner(s, 0, 0);
      assert TaskOk(s.rec[s.current]) && Owner(s, 0, s.current);
    }
  }

  /** The parent of the current task, if it waits for it, is ready again: at the tail of the foreground or at
      the head of its level. Nobody else moves. */
  lemma WakingMoves(s: State)
    requires Inv(s) && Runnable(s)
    ensures var t, w := s.rec[s.current], FindWaiter(s.rec, s.q[WAIT], s.rec[s.current].parent, s.rec[s.current].pid);
      if w.None? then Woken(s) == s
      else w.value in s.tasks && w.value != s.current && Home(s.rec[w.value]) == WAIT
           && Moved(s, Woken(s), w.value, s.rec[w.value].(state := S_READY))
  {
    var w := FindWaiter(s.rec, s.q[WAIT], s.rec[s.current].parent, s.rec[s.current].pid);
    if w.Some? {
      assert Agrees(s, WAIT) && TaskOk(s.rec[w.value]);
    }
  }

  lemma WokenKeeps(s: State)
    requires Inv(s) && Runnable(s)
    ensures Inv(Woken(s)) && Runnable(Woken(s)) && Woken(s).current == s.current && Woken(s).used == s.used
    ensures Woken(s).rec[s.current] == s.rec[s.current]
  {
    WakingMoves(s);
    var w := FindWaiter(s.rec, s.q[WAIT], s.rec[s.current].parent, s.rec[s.current].pid);
    if w.Some? {
      var x, t := w.value, s.rec[w.value].(state := S_READY);
      assert TaskOk(s.rec[x]) && Agrees(s, 0);
      MoveKeepsQueues(s, Woken(s), x, t);
      MoveKeepsPids(s, Woken(s), x, t);
      IdleStays(s, Woken(s), x, t);
    }
    InvIsRunnable(Woken(s));
  }

  /** A process that ends gives its number back, and no other does. */
  lemma EndingKeepsPids(s: State, s': State, x: nat, t: Task)
    requires PidsOk(s) && x < |s.rec| && Owner(s, s.rec[x].pid, x) && s'.rec == s.rec[x := t] && s'.tasks == s.tasks
    requires t.state == S_TERMINAL && s'.used == s.used - {s.rec[x].pid}
    ensures PidsOk(s')
  {
    forall p: nat, y: nat ensures Owner(s', p, y) <==> Owner(s, p, y) && y != x {
    }
    forall p: nat | p in s'.used ensures exists y: nat :: Owner(s', p, y) {
      var y: nat :| Owner(s, p, y);
      assert Owner(s', p, y);
    }
  }

  /** Idle is the only task alive with its number. */
  lemma OnlyIdleHasZero(s: State)
    requires Inv(s)
    ensures s.rec[s.current].pid == IDLE_PID <==> s.current == 0
  {
    assert Agrees(s, 0) && Home(s.rec[0]) == 0 && Owner(s, 0, 0);
    assert TaskOk(s.rec[s.current]) && Owner(s, s.rec[s.current].pid, s.current);
  }

  /** pc_exit keeps everything in order, whoever calls it. */
  lemma ExitKeeps(s: State)
    requires Inv(s)
    ensures Runnable(s) && Runnable(Woken(s)) && Inv(Exit(s))
    ensures if s.current == 0 then Exit(s) == s
            else s.current in Exit(s).q[EXITED] && Exit(s).current != s.current
                 && Exit(s).used == s.used - {s.rec[s.current].pid}
  {
    InvIsRunnable(s);
    WokenKeeps(s);
    OnlyIdleHasZero(s);
    if s.current != 0 {
      EndingKeeps(s);
    }
  }

  lemma EndingKeeps(s: State)
    requires Inv(s) && s.current != 0
    ensures Runnable(s) && Runnable(Woken(s)) && Inv(Exit(s))
    ensures s.current in Exit(s).q[EXITED] && Exit(s).current != s.current
    ensures Exit(s).used == s.used - {s.rec[s.current].pid}
  {
    InvIsRunnable(s);
    WokenKeeps(s);
    OnlyIdleHasZero(s);
    var b, t := Woken(s), s.rec[s.current].(state := S_TERMINAL);
    assert TaskOk(s.rec[s.current]);
    LeavingKeeps(b, t);
    LeavingMoves(b, t);
    var t' := if 0 < t.level < 3 then Charged(t) else t;
    EndingKeepsPids(b, Exit(s), s.current, t');
    assert TaskOk(Exit(s).rec[Exit(s).current]);
    OtherFieldsDoNotMatter(Left(b, t, EXITED), Exit(s));
  }

  lemma OtherFieldsDoNotMatter(s: State, s': State)
    requires QueuesOk(s) && IdleOk(s) && s'.rec == s.rec && s'.tasks == s.tasks && s'.q == s.q
    ensures QueuesOk(s') && IdleOk(s')
  {
    forall k | 0 <= k < 6 ensures Agrees(s', k) {
      assert Agrees(s, k);
    }
  }

  /** The parent that waits for the process that ends is ready afterwards, and nobody else stops waiting. */
  lemma ExitWakesTheParent(s: State, x: nat)
    requires Inv(s) && s.current != 0 && x in s.q[WAIT]
    ensures Runnable(s) && Runnable(Woken(s)) && x in s.tasks
    ensures var t := s.rec[s.current];
      x in Exit(s).q[WAIT] <==> !(s.rec[x].pid == t.parent && s.rec[x].state == WaitingFor(t.pid))
    ensures x !in Exit(s).q[WAIT] ==> x in Exit(s).q[s.rec[x].level] && s.rec[x].level <= 3
  {
    ExitKeeps(s);
    OnlyIdleHasZero(s);
    WokenKeeps(s);
    WakingMoves(s);
    assert Agrees(s, WAIT) && Agrees(Exit(s), WAIT) && TaskOk(s.rec[x]);
    var t := s.rec[s.current].(state := S_TERMINAL);
    LeavingMoves(Woken(s), t);
    var w := FindWaiter(s.rec, s.q[WAIT], t.parent, t.pid);
    if w.Some? && s.rec[x].pid == t.parent && s.rec[x].state == WaitingFor(t.pid) {
      assert Owner(s, t.parent, x) && Owner(s, t.parent, w.value);
    }
    if x !in Exit(s).q[WAIT] {
      assert Agrees(Exit(s), s.rec[x].level);
    }
  }

  // ---------------------------------------------------------------- killing

  /** pc_kill takes the first task with the number, alive or not. It keeps everything in order exactly when
      that one is alive; when it is a dead one not yet reaped, a living process loses its number. */
  lemma KillKeepsExactlyWhenFirstIsAlive(s: State, p: nat)
    requires Inv(s)
    ensures Runnable(s)
    ensures Kills(s, p) ==> FindPid(s.rec, s.tasks, p).Some?
    ensures Inv(Kill(s, p)) <==> (Kills(s, p) ==> s.rec[FindPid(s.rec, s.tasks, p).value].state != S_TERMINAL)
  {
    InvIsRunnable(s);
    if Kills(s, p) {
      var o: nat :| Owner(s, p, o);
      var x := FindPid(s.rec, s.tasks, p).value;
      if s.rec[x].state == S_TERMINAL {
        assert Owner(Kill(s, p), p, o);
      } else {
        assert Owner(s, p, x) && Owner(s, IDLE_PID, 0) by {
          assert Agrees(s, 0) && Home(s.rec[0]) == 0;
        }
        KillingTheLiving(s, p, x);
      }
    }
  }

  lemma KillingTheLiving(s: State, p: nat, x: nat)
    requires Inv(s) && Runnable(s) && Kills(s, p) && FindPid(s.rec, s.tasks, p) == Some(x) && Owner(s, p, x) && x != 0
    ensures Inv(Kill(s, p))
  {
    var r, t := Kill(s, p), s.rec[x].(state := S_TERMINAL);
    assert TaskOk(s.rec[x]);
    MoveKeepsQueues(s, r, x, t);
    EndingKeepsPids(s, r, x, t);
    IdleStays(s, r, x, t);
  }

  /** Such a state: process 2 has ended but is not reaped, and its number has been given out again. */
  function Reused(): State {
    State([Task(0, 0, S_READY, CNT_LV0, 0), Task(1, 0, S_READY, CNT_LV0, 0),
           Task(2, 1, S_TERMINAL, 500, 1), Task(2, 1, S_READY, 500, 1)],
          [0, 1, 2, 3], [[0, 1], [3], [], [], [], [2]], 1, {0, 1, 2}, 3)
  }

  lemma ReusedIsInOrder()
    ensures Inv(Reused())
  {
    ReusedQueues();
    var s := Reused();
    forall p: nat, x: nat ensures Owner(s, p, x) <==> (p == 0 && x == 0) || (p == 1 && x == 1) || (p == 2 && x == 3) {
    }
    assert Owner(s, 0, 0) && Owner(s, 1, 1) && Owner(s, 2, 3);
  }

  lemma ReusedQueues()
    ensures QueuesOk(Reused())
  {
    var s := Reused();
    assert forall x :: x in s.tasks <==> x == 0 || x == 1 || x == 2 || x == 3;
    assert NoDup([3]) && NoDup([2]) && NoDup([0, 1]) && NoDup([1, 2, 3]) && NoDup(s.tasks);
    assert Home(s.rec[0]) == 0 && Home(s.rec[1]) == 0 && Home(s.rec[2]) == EXITED && Home(s.rec[3]) == 1;
    forall k | 0 <= k < 6 ensures Agrees(s, k) {
    }
  }

  lemma KillCanHitTheDead()
    ensures Inv(Reused()) && Runnable(Reused()) && Kills(Reused(), 2) && !Inv(Kill(Reused(), 2))
    ensures Owner(Kill(Reused(), 2), 2, 3) && 2 !in Kill(Reused(), 2).used
  {
    var s := Reused();
    ReusedIsInOrder();
    var t := s.tasks;
    assert FindPid(s.rec, [2, 3], 2) == Some(2);
    assert FindPid(s.rec, [1, 2, 3], 2) == Some(2) && t[1..] == [1, 2, 3] && t[1..][1..] == [2, 3];
    KillKeepsExactlyWhenFirstIsAlive(s, 2);
  }

  /** A second kill before the next tick is refused, and changes nothing. */
  lemma KillTwiceIsAllowed()
    ensures var s := ChildKilled(); Runnable(s) && !Kills(s, 2) && Kill(s, 2) == s && Allowed(s, DoKill(2))
  {
  }

  /** A killed child does not wake the parent that waits for it. */
  lemma KillWakesNobody(s: State, p: nat, x: nat)
    requires Inv(s) && x in s.q[WAIT] && x in s.tasks && s.rec[x].pid != p
    ensures Runnable(s) && x in Kill(s, p).q[WAIT]
  {
    InvIsRunnable(s);
  }

  // ---------------------------------------------------------------- creating

  lemma CreateKeeps(s: State, memory: bool)
    requires Inv(s)
    ensures Runnable(s) && Inv(Create(s, memory))
  {
    InvIsRunnable(s);
    var f := FirstFree(s.used, s.nextPid, PID_NUM);
    if f.Some? && memory {
      var r, x := Create(s, memory), |s.rec|;
      AppendNoDup(s.tasks, x);
      forall k | 0 <= k < 6 ensures Agrees(r, k) {
        assert Agrees(s, k);
        AppendNoDup(s.q[k], x);
      }
      forall p: nat, y: nat ensures Owner(r, p, y) <==> Owner(s, p, y) || (p == f.value && y == x) {
      }
      forall p: nat | p in r.used ensures exists y: nat :: Owner(r, p, y) {
        if p == f.value {
          assert Owner(r, p, x);
        } else {
          var y: nat :| Owner(s, p, y);
          assert Owner(r, p, y);
        }
      }
    } else if f.Some? {
      OtherFieldsDoNotMatter(s, Create(s, memory));
      SamePids(s, Create(s, memory));
    }
  }

  lemma SamePids(s: State, s': State)
    requires PidsOk(s) && s'.rec == s.rec && s'.tasks == s.tasks && s'.used == s.used
    ensures PidsOk(s')
  {
    forall p: nat, y: nat ensures Owner(s', p, y) <==> Owner(s, p, y) {
    }
    forall p: nat | p in s'.used ensures exists y: nat :: Owner(s', p, y) {
      var y: nat :| Owner(s, p, y);
      assert Owner(s', p, y);
    }
  }

  // ---------------------------------------------------------------- whole runs

  /** What init_pc leaves behind: idle alone. */
  function Booted(): State {
    State([Task(IDLE_PID, IDLE_PID, S_READY, CNT_LV0, 0)], [0], [[0], [], [], [], [], []], 0, {IDLE_PID}, 1)
  }

  lemma BootedIsInOrder()
    ensures Inv(Booted())
  {
    var s := Booted();
    forall k | 0 <= k < 6 ensures Agrees(s, k) {
    }
    assert Owner(s, 0, 0);
  }

  datatype Op = DoCreate(memory: bool) | DoTick | DoWait(p: nat) | DoExit | DoKill(p: nat)

  function Do(s: State, op: Op): State
    requires Inv(s)
  {
    InvIsRunnable(s);
    WokenKeeps(s);
    match op
    case DoCreate(memory) => Create(s, memory)
    case DoTick => Tick(s)
    case DoWait(p) => Wait(s, p)
    case DoExit => Exit(s)
    case DoKill(p) => Kill(s, p)
  }

  /** Idle does not go to sleep, and no kill that pc_kill carries out is of a number that a dead process not yet
      reaped bore before. */
  predicate Allowed(s: State, op: Op) {
    match op
    case DoWait(p) => s.current == 0 && Runnable(s) ==> !Sleeps(s, p)
    case DoKill(p) =>
      var f := FindPid(s.rec, s.tasks, p);
      Runnable(s) && Kills(s, p) && f.Some? ==> s.rec[f.value].state != S_TERMINAL
    case _ => true
  }

  /** State i + 1 comes from state i by the i-th operation. */
  ghost predicate StepAt(r: seq<State>, ops: seq<Op>, i: nat)
    requires i + 1 < |r| && i < |ops|
  {
    Inv(r[i]) ==> r[i + 1] == Do(r[i], ops[i])
  }

  /** The operations that are allowed are exactly those that keep everything in order. */
  lemma StepKeeps(s: State, op: Op)
    requires Inv(s)
    ensures Inv(Do(s, op)) <==> Allowed(s, op)
  {
    InvIsRunnable(s);
    match op
    case DoCreate(memory) => CreateKeeps(s, memory);
    case DoTick => TickKeeps(s);
    case DoWait(p) => WaitKeeps(s, p);
    case DoExit => ExitKeeps(s);
    case DoKill(p) => KillKeepsExactlyWhenFirstIsAlive(s, p);
  }

  /** A run from the start, of any operations, for as long as everything is in order. */
  ghost predicate Run(r: seq<State>, ops: seq<Op>) {
    && |r| == |ops| + 1 && r[0] == Booted()
    && forall j {:trigger StepAt(r, ops, j)} :: 0 <= j < |ops| ==> StepAt(r, ops, j)
  }

  /** The first n operations are all allowed. */
  ghost predicate AllAllowed(r: seq<State>, ops: seq<Op>, n: nat)
    requires n <= |ops| < |r|
  {
    forall j {:trigger AllowedAt(r, ops, j)} :: 0 <= j < n ==> AllowedAt(r, ops, j)
  }

  ghost predicate AllowedAt(r: seq<State>, ops: seq<Op>, i: nat)
    requires i < |r| && i < |ops|
  {
    Allowed(r[i], ops[i])
  }

  ghost predicate GoodRun(r: seq<State>, ops: seq<Op>) {
    Run(r, ops) && AllAllowed(r, ops, |ops|)
  }

  /** After any number of operations, in any order, everything is in order as long as they were all allowed. */
  lemma {:induction false} AlwaysInOrder(r: seq<State>, ops: seq<Op>, n: nat)
    requires Run(r, ops) && n <= |ops| && AllAllowed(r, ops, n)
    ensures Inv(r[n])
    decreases n
  {
    if n == 0 {
      BootedIsInOrder();
    } else {
      AlwaysInOrder(r, ops, n - 1);
      assert StepAt(r, ops, n - 1) && AllowedAt(r, ops, n - 1);
      StepKeeps(r[n - 1], ops[n - 1]);
    }
  }

  /** And the first operation that is not allowed ends that. */
  lemma FirstNotAllowed(r: seq<State>, ops: seq<Op>, n: nat)
    requires Run(r, ops) && n < |ops| && AllAllowed(r, ops, n) && !AllowedAt(r, ops, n)
    ensures !Inv(r[n + 1])
  {
    AlwaysInOrder(r, ops, n);
    assert StepAt(r, ops, n);
    StepKeeps(r[n], ops[n]);
  }

  /** One more operation. */
  lemma Longer(r: seq<State>, ops: seq<Op>, op: Op) returns (r': seq<State>, ops': seq<Op>)
    requires GoodRun(r, ops) && Allowed(r[|ops|], op)
    ensures Inv(r[|ops|]) && GoodRun(r', ops') && r'[|ops'|] == Do(r[|ops|], op)
  {
    AlwaysInOrder(r, ops, |ops|);
    var s := Do(r[|ops|], op);
    r', ops' := r + [s], ops + [op];
    NewStep(r, ops, s, op);
    forall j | 0 <= j < |ops| ensures StepAt(r', ops', j) && AllowedAt(r', ops', j) {
      assert StepAt(r, ops, j) && AllowedAt(r, ops, j);
      SameStep(r, ops, s, op, j);
    }
  }

  lemma NewStep(r: seq<State>, ops: seq<Op>, s: State, op: Op)
    requires |r| == |ops| + 1 && Inv(r[|ops|]) && s == Do(r[|ops|], op) && Allowed(r[|ops|], op)
    ensures StepAt(r + [s], ops + [op], |ops|) && AllowedAt(r + [s], ops + [op], |ops|)
  {
  }

  lemma SameStep(r: seq<State>, ops: seq<Op>, s: State, op: Op, j: nat)
    requires |r| == |ops| + 1 && j < |ops| && StepAt(r, ops, j) && AllowedAt(r, ops, j)
    ensures StepAt(r + [s], ops + [op], j) && AllowedAt(r + [s], ops + [op], j)
  {
  }

  /** Each creation that finds a number but no memory moves the search on by one. */
  lemma {:induction false} NumbersPass(r: seq<State>, ops: seq<Op>, n: nat) returns (r': seq<State>, ops': seq<Op>)
    requires GoodRun(r, ops) && r[|ops|].nextPid + n <= PID_NUM && n > 0
    requires forall p :: r[|ops|].nextPid <= p < PID_NUM ==> p !in r[|ops|].used
    ensures GoodRun(r', ops') && r'[|ops'|] == r[|ops|].(nextPid := (r[|ops|].nextPid + n) % PID_NUM)
    decreases n
  {
    var s := r[|ops|];
    r', ops' := Longer(r, ops, DoCreate(false));
    assert FirstFree(s.used, s.nextPid, PID_NUM) == Some(s.nextPid);
    if n == 1 {
    } else {
      r', ops' := NumbersPass(r', ops', n - 1);
    }
  }

  /** Idle and the shell. */
  function WithShell(current: nat): State {
    State([Task(0, 0, S_READY, CNT_LV0, 0), Task(1, 0, S_READY, CNT_LV0, 0)],
          [0, 1], [[0, 1], [], [], [], [], []], current, {0, 1}, 2)
  }

  /** And a process 2 that the shell has created. */
  function WithChild(nextPid: nat): State {
    State([Task(0, 0, S_READY, CNT_LV0, 0), Task(1, 0, S_READY, CNT_LV0, 0), Task(2, 1, S_READY, 500, 1)],
          [0, 1, 2], [[0, 1], [2], [], [], [], []], 1, {0, 1, 2}, nextPid)
  }

  /** That process killed and not yet reaped. */
  function ChildKilled(): State {
    State([Task(0, 0, S_READY, CNT_LV0, 0), Task(1, 0, S_READY, CNT_LV0, 0), Task(2, 1, S_TERMINAL, 500, 1)],
          [0, 1, 2], [[0, 1], [], [], [], [], [2]], 1, {0, 1}, 0)
  }

  lemma ShellCreated()
    ensures Create(Booted(), true) == WithShell(0)
  {
    var s, r := Booted(), Create(Booted(), true);
    assert FirstFree({0}, 1, PID_NUM) == Some(1) && {0} + {1} == {0, 1};
    assert r.rec == WithShell(0).rec && r.tasks == [0, 1];
    assert s.q[0] + [1] == [0, 1];
    assert r.q == s.q[0 := s.q[0] + [1]] == WithShell(0).q;
  }

  lemma ShellScheduled()
    ensures Tick(WithShell(0)) == WithShell(1)
  {
    var s := WithShell(0);
    assert Cleared(s) == s && Pos([0, 1], 0) == 0;
  }

  lemma ChildCreated()
    ensures Create(WithShell(1), true) == WithChild(3)
  {
    var s, r := WithShell(1), Create(WithShell(1), true);
    assert FirstFree({0, 1}, 2, PID_NUM) == Some(2) && {0, 1} + {2} == {0, 1, 2};
    assert r.rec == WithChild(3).rec && r.tasks == [0, 1, 2];
    assert s.q[1] + [2] == [2];
    assert r.q == s.q[1 := s.q[1] + [2]] == WithChild(3).q;
  }

  lemma ChildIsKilled()
    ensures Kill(WithChild(0), 2) == ChildKilled()
    ensures FindPid(WithChild(0).rec, WithChild(0).tasks, 2) == Some(2)
  {
    var s := WithChild(0);
    var t := s.tasks;
    assert FindPid(s.rec, [2], 2) == Some(2);
    assert FindPid(s.rec, [1, 2], 2) == Some(2) && t[1..] == [1, 2] && t[1..][1..] == [2];
    assert Without([0, 1], 2) == [0, 1] && Without([2], 2) == [] && {0, 1, 2} - {2} == {0, 1};
    var r := Kill(s, 2);
    assert Kills(s, 2) && r.rec == s.rec[2 := s.rec[2].(state := S_TERMINAL)] == ChildKilled().rec;
    assert Unqueued(s, 2).q == [[0, 1], [], [], [], [], []];
    assert Unqueued(s, 2).q[EXITED] + [2] == [2];
    assert r.q == Unqueued(s, 2).q[EXITED := Unqueued(s, 2).q[EXITED] + [2]] == ChildKilled().q;
  }

  lemma NumberGivenAgain()
    ensures Create(ChildKilled(), true) == Reused()
  {
    assert FirstFree({0, 1}, 2, 254) == Some(2) && FirstFree({0, 1}, 1, 255) == Some(2);
    assert FirstFree({0, 1}, 0, PID_NUM) == Some(2);
    assert {0, 1} + {2} == {0, 1, 2};
    var s, r := ChildKilled(), Create(ChildKilled(), true);
    assert r.rec == Reused().rec && r.tasks == [0, 1, 2, 3];
    assert s.q[1] + [3] == [3];
    assert r.q == s.q[1 := s.q[1] + [3]] == Reused().q;
  }

  lemma ShellIsReached() returns (r: seq<State>, ops: seq<Op>)
    ensures GoodRun(r, ops) && r[|ops|] == WithShell(0)
  {
    r, ops := [Booted()], [];
    r, ops := Longer(r, ops, DoCreate(true));
    ShellCreated();
  }

  lemma ChildIsReached() returns (r: seq<State>, ops: seq<Op>)
    ensures GoodRun(r, ops) && r[|ops|] == WithChild(3)
  {
    r, ops := ShellIsReached();
    r, ops := Longer(r, ops, DoTick);
    ShellScheduled();
    r, ops := Longer(r, ops, DoCreate(true));
    ChildCreated();
  }

  lemma KilledFrom(r: seq<State>, ops: seq<Op>) returns (r': seq<State>, ops': seq<Op>)
    requires GoodRun(r, ops) && r[|ops|] == WithChild(0)
    ensures GoodRun(r', ops') && r'[|ops'|] == ChildKilled()
  {
    ChildIsKilled();
    r', ops' := Longer(r, ops, DoKill(2));
  }

  /** The state in which pc_kill hits the dead is one that a run from the start comes to: process 2 is killed, and
      before the next tick reaps it, its number, reached again, is given out. */
  lemma ReusedIsReached() returns (r: seq<State>, ops: seq<Op>)
    ensures GoodRun(r, ops) && r[|ops|] == Reused()
  {
    r, ops := ChildIsReached();
    r, ops := NumbersPass(r, ops, 253);
    r, ops := KilledFrom(r, ops);
    r, ops := Longer(r, ops, DoCreate(true));
    NumberGivenAgain();
  }

  // ---------------------------------------------------------------- process numbers

  /** pid_alloc finds a number unless all 256 are taken; it is the first free one going round. */
  lemma {:induction false} FirstFreeIsFirst(used: set<nat>, from: nat, tries: nat)
    requires from < PID_NUM
    ensures FirstFree(used, from, tries).None? <==> forall i: nat :: i < tries ==> Circular(from, i) in used
    ensures FirstFree(used, from, tries).Some? ==>
      exists i: nat :: i < tries && FirstFree(used, from, tries) == Some(Circular(from, i))
                                                                   && forall j: nat :: j < i ==>
                                                                     Circular(from, j) in used
    decreases tries
  {
    if tries == 0 {
    } else {
      assert Circular(from, 0) == from;
      if from in used {
        var next := (from + 1) % PID_NUM;
        FirstFreeIsFirst(used, next, tries - 1);
        assert forall i: nat :: Circular(next, i) == Circular(from, i + 1);
        assert forall i: nat :: i > 0 ==> Circular(from, i) == Circular(next, i - 1);
        if FirstFree(used, next, tries - 1).Some? {
          var i: nat :| i < tries - 1 && FirstFree(used, next, tries - 1) == Some(Circular(next, i))
                        && forall j: nat :: j < i ==> Circular(next, j) in used;
          assert FirstFree(used, from, tries) == Some(Circular(from, i + 1));
        }
      }
    }
  }

  function Circular(from: nat, i: nat): nat {
    (from + i) % PID_NUM
  }

  /** So creation fails for want of a number exactly when 256 processes are alive. */
  lemma NoNumberLeft(used: set<nat>, from: nat)
    requires from < PID_NUM
    ensures FirstFree(used, from, PID_NUM).None? <==> forall p: nat :: p < PID_NUM ==> p in used
  {
    if FirstFree(used, from, PID_NUM).None? {
      FirstFreeIsFirst(used, from, PID_NUM);
      forall p: nat | p < PID_NUM ensures p in used {
        OnTheCircle(from, p);
      }
    }
  }

  lemma OnTheCircle(from: nat, p: nat)
    requires from < PID_NUM && p < PID_NUM
    ensures exists i: nat :: i < PID_NUM && Circular(from, i) == p
  {
    var i: nat := if p >= from then p - from else p + PID_NUM - from;
    assert Circular(from, i) == p;
  }
}

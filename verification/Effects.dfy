/** What the operations of kernel/pc/pc.c change, field by field, and what they leave alone. */
module Effects {
  import opened Wrappers
  import opened Sequences
  import opened Queues
  import opened Steps
  import opened Rounds

  // ---------------------------------------------------------------- waiting

  /** The caller sleeps exactly when a living process has the number and is its child. */
  lemma SleepsIs(s: State, p: nat)
    requires Inv(s)
    ensures Runnable(s)
    ensures Sleeps(s, p) <==> exists x: nat :: Owner(s, p, x) && s.rec[x].parent == s.rec[s.current].pid
  {
    InvIsRunnable(s);
    var f := FindLive(s.rec, s.tasks, p);
    if f.Some? {
      assert Owner(s, p, f.value);
    }
  }

  /** One count used up; the last one makes the task drop a level, with 1000 counts on level 2 and 1500 on level 3. */
  predicate HasTurned(before: Task, after: Task) {
    && after.pid == before.pid && after.parent == before.parent && after.state == before.state
    && if before.level == 1 || before.level == 2 then
         if before.count > 1 then after.level == before.level && after.count == before.count - 1
         else after.level == before.level + 1 && after.count == if before.level == 1 then 1000 else 1500
       else after.level == before.level && after.count == before.count
  }

  /** The current task has left the queues it was in for the tail of queue k, and has paid for its turn. */
  ghost predicate HasLeft(s: State, r: State, k: nat, state: int) {
    && |s.q| == |r.q| == 6 && k < 6 && s.current < |s.rec| == |r.rec|
    && HasTurned(s.rec[s.current].(state := state), r.rec[s.current])
    && r.q[k] == Without(s.q[k], s.current) + [s.current]
    && (forall j :: 0 <= j < 6 && j != k ==> r.q[j] == Without(s.q[j], s.current))
    && (forall y :: 0 <= y < |s.rec| && y != s.current ==> r.rec[y] == s.rec[y])
    && r.tasks == s.tasks && r.nextPid == s.nextPid
  }

  lemma ChargedIs(t: Task)
    requires 0 < t.level < 3 && t.count > 0
    ensures HasTurned(t, Charged(t))
  {
  }

  lemma LeftIs(s: State, t: Task, k: nat)
    requires Inv(s) && Runnable(s) && k < 6 && t == s.rec[s.current].(state := t.state)
    ensures HasLeft(s, Steps.Left(s, t, k), k, t.state) && Steps.Left(s, t, k).used == s.used
  {
    var cur := s.current;
    var a := WithTask(s, cur, t);
    assert TaskOk(s.rec[cur]);
    if 0 < t.level < 3 {
      ChargedIs(t);
    }
    assert Turned(a).rec == s.rec[cur := if 0 < t.level < 3 then Charged(t) else t];
    forall j | 0 <= j < 6 ensures Without(Turned(a).q[j], cur) == Without(s.q[j], cur) {
      WithoutTwice(s.q[j], cur);
      WithoutAppended(Without(s.q[j], cur), cur);
    }
  }

  /** waitpid: a caller that sleeps goes to the tail of the wait queue and waits for just that number. */
  lemma WaitIs(s: State, p: nat)
    requires Inv(s)
    ensures Runnable(s)
    ensures Sleeps(s, p) ==> HasLeft(s, Wait(s, p), 4, -(p as int)) && Wait(s, p).used == s.used
    ensures !Sleeps(s, p) ==> Wait(s, p) == s
  {
    InvIsRunnable(s);
    if Sleeps(s, p) {
      LeftIs(s, s.rec[s.current].(state := WaitingFor(p)), WAIT);
    }
  }

  /** A tick leaves a waiting task where it is, and a living one its number and its parent. */
  lemma TickLeaves(s: State, x: nat)
    requires Inv(s) && x in s.tasks && x < |s.rec| && s.rec[x].state != S_TERMINAL
    ensures Runnable(s) && Inv(Tick(s)) && x in Tick(s).tasks && x < |Tick(s).rec|
    ensures var t, t' := s.rec[x], Tick(s).rec[x]; t'.pid == t.pid && t'.parent == t.parent && t'.state == t.state
    ensures x in s.q[WAIT] ==> x in Tick(s).q[WAIT] && Tick(s).rec[x] == s.rec[x]
  {
    TickKeeps(s);
    ClearedKeeps(s);
    TurnedKeeps(Cleared(s));
    assert Agrees(s, EXITED) && Agrees(s, WAIT) && Agrees(Tick(s), WAIT);
  }

  lemma {:induction false} TicksLeave(r: seq<State>, n: nat, x: nat)
    requires IsRun(r) && n < |r| && Inv(r[0]) && x in r[0].tasks && x < |r[0].rec| && r[0].rec[x].state != S_TERMINAL
    ensures Inv(r[n]) && x in r[n].tasks && x < |r[n].rec|
    ensures var t, t' := r[0].rec[x], r[n].rec[x]; t'.pid == t.pid && t'.parent == t.parent && t'.state == t.state
    ensures x in r[0].q[WAIT] ==> x in r[n].q[WAIT] && r[n].rec[x] == r[0].rec[x]
    decreases n
  {
    if n == 0 {
    } else {
      TicksLeave(r, n - 1, x);
      assert TickAt(r, n - 1);
      TickLeaves(r[n - 1], x);
    }
  }

  /** waitpid and pc_exit together: a caller sleeps for process p, and nothing happens but ticks until process p runs
      and ends. The caller is then ready again, on the level it had when it went to sleep. */
  lemma SleeperIsWoken(s: State, p: nat, r: seq<State>, n: nat)
    requires Inv(s) && s.current != 0 && Runnable(s) && Sleeps(s, p)
    requires IsRun(r) && n < |r| && r[0] == Wait(s, p)
    requires r[n].current < |r[n].rec| && r[n].rec[r[n].current].pid == p
    ensures var x, u := s.current, r[n];
      && Inv(u) && Runnable(u) && Runnable(Woken(u)) && x in u.q[WAIT] && x < |Exit(u).rec|
      && x !in Exit(u).q[WAIT] && Exit(u).rec[x] == r[0].rec[x].(state := 1)
      && r[0].rec[x].level <= 3 && x in Exit(u).q[r[0].rec[x].level]
  {
    var x, u := s.current, r[n];
    SleeperAndChild(s, p, r, n);
    OnlyIdleHasZero(u);
    ExitWakesTheParent(u, x);
    WokenRecord(u, x);
  }

  /** Until then the sleeper sleeps, and process p is its child. */
  lemma SleeperAndChild(s: State, p: nat, r: seq<State>, n: nat)
    requires Inv(s) && s.current != 0 && Runnable(s) && Sleeps(s, p)
    requires IsRun(r) && n < |r| && r[0] == Wait(s, p)
    requires r[n].current < |r[n].rec| && r[n].rec[r[n].current].pid == p
    ensures var x, u := s.current, r[n];
      && Inv(u) && Runnable(u) && p > 0 && x in u.q[WAIT] && x in u.tasks && u.rec[x] == r[0].rec[x]
      && u.rec[x].state == -(p as int) && u.rec[x].level <= 3 && u.rec[u.current].parent == u.rec[x].pid
  {
    var x, u := s.current, r[n];
    WaitKeeps(s, p);
    WaitIs(s, p);
    OnlyIdleIsItsChild(s, p);
    var y: nat := FindLive(s.rec, s.tasks, p).value;
    assert TaskOk(s.rec[x]);
    TicksLeave(r, n, x);
    TicksLeave(r, n, y);
    InvIsRunnable(u);
    assert Owner(u, p, y) && TaskOk(u.rec[x]);
    assert TaskOk(u.rec[u.current]) && Owner(u, p, u.current);
  }

  /** What becomes of the waiter's record. */
  lemma WokenRecord(u: State, x: nat)
    requires Inv(u) && u.current != 0 && x in u.q[WAIT] && x in u.tasks && Runnable(u)
    requires u.rec[x].pid == u.rec[u.current].parent && u.rec[x].state == WaitingFor(u.rec[u.current].pid)
    ensures Runnable(Woken(u)) && x < |Exit(u).rec| && Exit(u).rec[x] == u.rec[x].(state := 1)
  {
    WokenKeeps(u);
    WakingMoves(u);
    OnlyIdleHasZero(u);
    assert Agrees(u, WAIT) && TaskOk(u.rec[x]);
    var t := u.rec[u.current];
    var w := FindWaiter(u.rec, u.q[WAIT], t.parent, t.pid);
    assert Owner(u, t.parent, x) && Owner(u, t.parent, w.value);
    LeftIs(Woken(u), t.(state := S_TERMINAL), EXITED);
  }

  // ---------------------------------------------------------------- waking and ending

  /** x waits for the current task and is its parent. */
  predicate WaitsForCurrent(s: State, x: nat) {
    && |s.q| == 6 && x in s.q[4] && x < |s.rec| && s.current < |s.rec|
    && s.rec[x].pid == s.rec[s.current].parent && s.rec[x].state == -(s.rec[s.current].pid as int)
  }

  /** x is ready again: at the tail of the foreground, or at the head of its background level. */
  ghost predicate HasWoken(s: State, r: State, x: nat) {
    && |s.q| == |r.q| == 6 && x < |s.rec| && s.rec[x].level <= 3
    && r == s.(rec := s.rec[x := s.rec[x].(state := 1)], q := r.q)
    && r.q[4] == Without(s.q[4], x) && r.q[5] == s.q[5]
    && forall k :: 0 <= k <= 3 ==>
         r.q[k] == if k != s.rec[x].level then s.q[k] else if k == 0 then s.q[0] + [x] else [x] + s.q[k]
  }

  /** wakeup_parent */
  lemma WokenIs(s: State)
    requires Inv(s)
    ensures Runnable(s)
    ensures forall x: nat :: WaitsForCurrent(s, x) ==> HasWoken(s, Woken(s), x)
    ensures (forall x: nat :: !WaitsForCurrent(s, x)) ==> Woken(s) == s
  {
    InvIsRunnable(s);
    var t := s.rec[s.current];
    var w := FindWaiter(s.rec, s.q[WAIT], t.parent, t.pid);
    assert Agrees(s, WAIT);
    forall x: nat | WaitsForCurrent(s, x) ensures HasWoken(s, Woken(s), x) {
      assert Owner(s, t.parent, x) && Owner(s, t.parent, w.value);
      WaiterIsNowhereElse(s, x);
    }
    if w.Some? {
      assert WaitsForCurrent(s, w.value);
    }
  }

  lemma WaiterIsNowhereElse(s: State, x: nat)
    requires Inv(s) && x in s.q[WAIT]
    ensures x in s.tasks && s.rec[x].level <= 3 && forall k :: 0 <= k < 6 && k != WAIT ==> Without(s.q[k], x) == s.q[k]
  {
    assert Agrees(s, WAIT) && TaskOk(s.rec[x]);
    forall k | 0 <= k < 6 && k != WAIT ensures Without(s.q[k], x) == s.q[k] {
      assert Agrees(s, k);
    }
  }

  /** pc_exit: after its parent has been woken the caller, now ended, goes to the tail of `exited` and gives back its
      number. Idle is refused. */
  lemma ExitIs(s: State)
    requires Inv(s)
    ensures Runnable(s) && Runnable(Woken(s))
    ensures s.current == 0 ==> Exit(s) == s
    ensures s.current != 0 ==>
      HasLeft(Woken(s), Exit(s), 5, 4) && Exit(s).used == s.used - {s.rec[s.current].pid}
  {
    ExitKeeps(s);
    WokenKeeps(s);
    OnlyIdleHasZero(s);
    LeftIs(Woken(s), s.rec[s.current].(state := S_TERMINAL), EXITED);
  }

  // ---------------------------------------------------------------- killing

  /** pc_kill refuses numbers 0 and 1, the caller's own and those of nobody alive, and then changes nothing. */
  lemma KillRefused(s: State, p: nat)
    requires Inv(s)
    ensures Runnable(s)
    ensures Kills(s, p) <==> p != 0 && p != 1 && p != s.rec[s.current].pid && exists x: nat :: Owner(s, p, x)
    ensures !Kills(s, p) ==> Kill(s, p) == s
    ensures !Kills(s, 0) && !Kills(s, 1)
  {
    InvIsRunnable(s);
  }

  /** Number i of the list is the first with this process number. */
  predicate FirstWithPid(s: State, p: nat, i: nat) {
    && i < |s.tasks| && s.tasks[i] < |s.rec| && s.rec[s.tasks[i]].pid == p
    && forall j :: 0 <= j < i ==> s.tasks[j] < |s.rec| ==> s.rec[s.tasks[j]].pid != p
  }

  lemma {:induction false} FoundFirst(rec: seq<Task>, q: seq<nat>, p: nat, i: nat)
    requires i < |q| && q[i] < |rec| && rec[q[i]].pid == p
    requires forall j :: 0 <= j < i ==> q[j] < |rec| ==> rec[q[j]].pid != p
    ensures FindPid(rec, q, p) == Some(q[i])
  {
    if i == 0 {
    } else {
      assert q[0] < |rec| ==> rec[q[0]].pid != p;
      FoundFirst(rec, q[1..], p, i - 1);
    }
  }

  /** Otherwise the first task with the number ends: it leaves its queue for the tail of `exited`, and the number is
      free. */
  lemma KillIs(s: State, p: nat, i: nat)
    requires Inv(s) && Runnable(s) && Kills(s, p) && FirstWithPid(s, p, i)
    ensures var x, r := s.tasks[i], Kill(s, p);
      && |r.q| == 6 && r == s.(rec := s.rec[x := s.rec[x].(state := 4)], q := r.q, used := s.used - {p})
      && r.q[5] == Without(s.q[5], x) + [x] && forall k :: 0 <= k < 5 ==> r.q[k] == Without(s.q[k], x)
  {
    FoundFirst(s.rec, s.tasks, p, i);
  }

  // ---------------------------------------------------------------- creating

  /** task_create: process 1, the shell, goes to the tail of the foreground with a count of 0xffffffff, every other one
      to the tail of level 1 with 500. Without memory the number is given back, but the search will start behind it. */
  lemma CreatedIs(s: State, memory: bool, p: nat)
    requires Inv(s) && FirstFree(s.used, s.nextPid, PID_NUM) == Some(p)
    ensures Runnable(s)
    ensures !memory ==> Create(s, memory) == s.(nextPid := (p + 1) % 256)
    ensures memory ==>
      var r, x, k := Create(s, memory), |s.rec|, if p == 1 then 0 else 1;
      && |s.q| == 6 && r.q == s.q[k := s.q[k] + [x]] && r.current == s.current
      && r.rec == s.rec + [Task(p, s.rec[s.current].pid, 1, if p == 1 then 0xffff_ffff else 500, k)]
      && r.tasks == s.tasks + [x] && r.used == s.used + {p} && r.nextPid == (p + 1) % 256
  {
    InvIsRunnable(s);
  }

  // ---------------------------------------------------------------- choosing

  /** find_next_task: after a foreground task the next one in the foreground; after its last one the head of the lowest
      background level that is not empty, if there is one; in all other cases the first foreground task. */
  lemma ChoiceIs(s: State, i: nat)
    requires Inv(s)
    ensures Runnable(s)
    ensures s.rec[s.current].level == 0 && i < |s.q[0]| && s.q[0][i] == s.current ==>
      Choice(s) == if i + 1 < |s.q[0]| then s.q[0][i + 1]
                   else if s.q[1] != [] then s.q[1][0] else if s.q[2] != [] then s.q[2][0]
                   else if s.q[3] != [] then s.q[3][0] else s.q[0][0]
    ensures s.rec[s.current].level != 0 ==> Choice(s) == s.q[0][0]
  {
    InvIsRunnable(s);
    FindBackIs(s);
    assert Agrees(s, 0);
    if i < |s.q[0]| {
      PosOf(s.q[0], i);
    }
  }

  /** pc_schedule: what has ended is reaped, the current task pays and goes to the tail of its level, and the choice
      runs. */
  lemma TickIs(s: State)
    requires Inv(s)
    ensures Runnable(s)
    ensures var r, cur := Tick(s), s.current;
      && |s.q| == |r.q| == 6 && cur < |s.rec| == |r.rec|
      && HasTurned(s.rec[cur], r.rec[cur]) && (forall y :: 0 <= y < |s.rec| && y != cur ==> r.rec[y] == s.rec[y])
      && (forall x :: x in r.tasks <==> x in s.tasks && x !in s.q[5]) && r.q[5] == []
      && (forall k :: 0 <= k < 5 ==>
            if 0 < s.rec[cur].level < 3 && k == r.rec[cur].level then r.q[k] == Without(s.q[k], cur) + [cur]
            else if 0 < s.rec[cur].level < 3 then r.q[k] == Without(s.q[k], cur) else r.q[k] == s.q[k])
      && r.used == s.used && r.nextPid == s.nextPid
  {
    InvIsRunnable(s);
    assert TaskOk(s.rec[s.current]);
  }
}

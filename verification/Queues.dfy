/** The task queues of kernel/pc/pc.c and the steps that change them, as functions on a snapshot.

    Queue 0 is `sched` (foreground), 1 to 3 are `sched_back[1..3]`, 4 is `wait` and 5 is `exited`;
    `tasks` lists everything not yet reaped. A task is named by the order in which it was created. */
module Queues {
  import opened Sequences

  const S_READY: int := 1
  const S_TERMINAL: int := 4
  const IDLE_PID: nat := 0
  const INIT_PID: nat := 1
  const PID_NUM: nat := 256
  const CNT_BASE: nat := 500
  const CNT_LV0: nat := 0xffff_ffff
  const WAIT: nat := 4
  const EXITED: nat := 5

  /** A negative state says that the task waits for the process with that number, negated. */
  datatype Task = Task(pid: nat, parent: nat, state: int, count: nat, level: nat)

  function WaitingFor(p: nat): int {
    -(p as int)
  }

  datatype State = State(rec: seq<Task>, tasks: seq<nat>, q: seq<seq<nat>>, current: nat, used: set<nat>, nextPid: nat)

  // ---------------------------------------------------------------- the invariant

  /** The queue a task belongs in, by its state and level. */
  function Home(t: Task): nat {
    if t.state == S_TERMINAL then EXITED else if t.state < 0 then WAIT else t.level
  }

  predicate TaskOk(t: Task) {
    && (t.state == S_READY || t.state == S_TERMINAL || t.state < 0)
    && t.level <= 3 && t.pid < PID_NUM
    && (t.level > 0 ==> 0 < t.count <= CNT_BASE * t.level)
  }

  /** Queue k holds exactly the unreaped tasks that belong there, each once. */
  ghost predicate Agrees(s: State, k: nat)
    requires k < |s.q| && forall x :: x in s.tasks ==> x < |s.rec|
  {
    NoDup(s.q[k]) && forall x: nat {:trigger x in s.q[k]} {:trigger x in s.tasks} ::
                       x in s.q[k] <==> x in s.tasks && Home(s.rec[x]) == k
  }

  ghost predicate QueuesOk(s: State) {
    && |s.q| == 6 && NoDup(s.tasks)
    && (forall x :: x in s.tasks ==> x < |s.rec|)
    && (forall x :: x in s.tasks ==> TaskOk(s.rec[x]))
    && (forall k :: 0 <= k < 6 ==> Agrees(s, k))
  }

  /** Process x is alive and has number p. */
  predicate Owner(s: State, p: nat, x: nat) {
    x in s.tasks && x < |s.rec| && s.rec[x].state != S_TERMINAL && s.rec[x].pid == p
  }

  /** The numbers in use are those of the processes alive, and no two of these share one. */
  ghost predicate PidsOk(s: State) {
    && (forall p: nat, x: nat {:trigger Owner(s, p, x)} :: Owner(s, p, x) ==> p in s.used)
    && (forall p: nat :: p in s.used ==> exists x: nat :: Owner(s, p, x))
    && (forall p: nat, x: nat, y: nat {:trigger Owner(s, p, x), Owner(s, p, y)} :: Owner(s, p, x) && Owner(s, p, y) ==>
         x == y)
    && (forall p: nat :: p in s.used ==> p < PID_NUM)
  }

  /** Idle is the first task; it has number 0, is its own parent and stays in the foreground. */
  predicate IdleOk(s: State) {
    |s.rec| > 0 && |s.q| == 6 && 0 in s.q[0] && s.rec[0].pid == IDLE_PID && s.rec[0].parent == IDLE_PID
  }

  ghost predicate Inv(s: State) {
    && QueuesOk(s) && PidsOk(s) && IdleOk(s)
    && s.current in s.tasks && Home(s.rec[s.current]) <= 3 && s.nextPid < PID_NUM
  }

  /** Every unreaped task is in exactly one queue: the one its state and level name. */
  lemma InExactlyOneQueue(s: State, x: nat, k: nat)
    requires QueuesOk(s) && x in s.tasks && k < 6
    ensures x in s.q[k] <==> k == Home(s.rec[x])
    ensures Home(s.rec[x]) < 6
    ensures forall i, j :: 0 <= i < j < |s.q[k]| ==> s.q[k][i] != s.q[k][j]
  {
    assert Agrees(s, k) && TaskOk(s.rec[x]);
    forall i, j | 0 <= i < j < |s.q[k]| ensures s.q[k][i] != s.q[k][j] {
      NoDupIndices(s.q[k], i, j);
    }
  }

  // ---------------------------------------------------------------- moving a task

  /** remove_sched: x leaves whatever queue it is in. */
  function Unqueued(s: State, x: nat): (r: State)
    requires |s.q| == 6
    ensures |r.q| == 6 && forall k :: 0 <= k < 6 ==> r.q[k] == Without(s.q[k], x)
  {
    s.(q := [Without(s.q[0], x), Without(s.q[1], x), Without(s.q[2], x),
             Without(s.q[3], x), Without(s.q[4], x), Without(s.q[5], x)])
  }

  function Appended(s: State, k: nat, x: nat): State
    requires |s.q| == 6 && k < 6
  {
    s.(q := s.q[k := s.q[k] + [x]])
  }

  function Prepended(s: State, k: nat, x: nat): State
    requires |s.q| == 6 && k < 6
  {
    s.(q := s.q[k := [x] + s.q[k]])
  }

  function WithTask(s: State, x: nat, t: Task): State
    requires x < |s.rec|
  {
    s.(rec := s.rec[x := t])
  }

  /** s' is s with x, its record now t, at one end of the queue where it belongs. */
  ghost predicate Moved(s: State, s': State, x: nat, t: Task) {
    && x < |s.rec| && |s.q| == |s'.q| == 6 && s'.rec == s.rec[x := t] && s'.tasks == s.tasks
    && forall k :: 0 <= k < 6 ==>
         if k == Home(t) then s'.q[k] == Without(s.q[k], x) + [x] || s'.q[k] == [x] + Without(s.q[k], x)
         else s'.q[k] == Without(s.q[k], x)
  }

  lemma MoveKeepsQueues(s: State, s': State, x: nat, t: Task)
    requires QueuesOk(s) && x in s.tasks && TaskOk(t) && Moved(s, s', x, t)
    ensures QueuesOk(s')
  {
    forall k | 0 <= k < 6 ensures Agrees(s', k) {
      assert Agrees(s, k);
      WithoutNoDup(s.q[k], x);
      AppendNoDup(Without(s.q[k], x), x);
      PrependNoDup(Without(s.q[k], x), x);
      forall y: nat ensures y in s'.q[k] <==> y in s'.tasks && Home(s'.rec[y]) == k {
      }
    }
  }

  /** A move that neither ends a process nor changes its number leaves the numbers as they are. */
  lemma MoveKeepsPids(s: State, s': State, x: nat, t: Task)
    requires PidsOk(s) && x in s.tasks && x < |s.rec|
    requires s'.rec == s.rec[x := t] && s'.tasks == s.tasks && s'.used == s.used
    requires t.pid == s.rec[x].pid && (t.state == S_TERMINAL <==> s.rec[x].state == S_TERMINAL)
    ensures PidsOk(s')
  {
    forall p: nat, y: nat ensures Owner(s', p, y) <==> Owner(s, p, y) {
    }
    forall p: nat | p in s'.used ensures exists y: nat :: Owner(s', p, y) {
      var y: nat :| Owner(s, p, y);
      assert Owner(s', p, y);
    }
  }
}

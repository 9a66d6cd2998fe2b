/** Runs of kernel/pc/pc.c in which nothing happens but clock ticks. */
module Rounds {
  import opened Wrappers
  import opened Bits
  import opened Sequences
  import opened Queues
  import opened Steps

  /** State i + 1 of the run comes from state i by a clock tick. */
  ghost predicate TickAt(r: seq<State>, i: nat)
    requires i + 1 < |r|
  {
    Runnable(r[i]) && r[i + 1] == Tick(r[i])
  }

  /** A run in which nothing happens but clock ticks. */
  ghost predicate IsRun(r: seq<State>) {
    forall i {:trigger TickAt(r, i)} :: 0 <= i < |r| - 1 ==> TickAt(r, i)
  }

  /** Nothing to reap, and the foreground holds more than the running task. */
  ghost predicate Quiet(s: State) {
    Inv(s) && s.q[EXITED] == [] && |s.q[0]| >= 2
  }

  lemma QuietTick(s: State)
    requires Quiet(s)
    ensures Runnable(s) && Cleared(s) == s && !Hangs(s)
    ensures Tick(s) == Turned(s).(current := Choice(s)) && Quiet(Tick(s))
    ensures Tick(s).q[0] == s.q[0] && Tick(s).q[WAIT] == s.q[WAIT]
  {
    TickKeeps(s);
    assert s.q[EXITED := []] == s.q;
    HangsExactlyWhenAlone(s);
    TurnedKeeps(s);
    var t := s.rec[s.current];
    assert TaskOk(t) && Agrees(s, WAIT) && Agrees(s, 0);
  }

  /** In a tick-only run every state stays quiet; the foreground and the waiting stay as they are. */
  lemma {:induction false} QuietRun(r: seq<State>, a: nat, n: nat)
    requires IsRun(r) && a + n < |r| && Quiet(r[a])
    ensures Quiet(r[a + n]) && r[a + n].q[0] == r[a].q[0] && r[a + n].q[WAIT] == r[a].q[WAIT]
    decreases n
  {
    if n == 0 {
    } else {
      QuietRun(r, a, n - 1);
      assert TickAt(r, a + n - 1);
      QuietTick(r[a + n - 1]);
    }
  }

  /** A tick gives the processor to background level k only when no lower level has a task. */
  lemma LowerLevelsFirst(s: State, k: nat)
    requires Quiet(s) && 1 <= k <= 3 && Runnable(s) && Tick(s).current in s.q[k]
    ensures s.q[k][0] == Tick(s).current
    ensures forall j :: 1 <= j < k ==> s.q[j] == []
    ensures s.rec[s.current].level == 0 && s.q[0][|s.q[0]| - 1] == s.current
  {
    QuietTick(s);
    FindBackIs(s);
    assert TaskOk(s.rec[s.current]) && Agrees(s, 0) && Agrees(s, 1) && Agrees(s, 2) && Agrees(s, 3);
    assert s.q[0][0] in s.q[0];
  }

  /** A task of level 1 or 2 that a tick charges has a count left to charge, and a task never moves up. */
  lemma CountsDoNotUnderflow(s: State, x: nat)
    requires Quiet(s) && x < |s.rec|
    ensures Runnable(s) && |Tick(s).rec| == |s.rec|
    ensures Tick(s).rec[x].level >= s.rec[x].level
    ensures Tick(s).rec[x] != s.rec[x] ==> x == s.current && s.rec[x].count > 0 && 0 < s.rec[x].level < 3
    ensures Tick(s).rec[x] != s.rec[x] ==>
      Tick(s).rec[x] == if s.rec[x].count > 1 then s.rec[x].(count := s.rec[x].count - 1)
                        else s.rec[x].(level := s.rec[x].level + 1, count := CNT_BASE * (s.rec[x].level + 1))
  {
    QuietTick(s);
    assert TaskOk(s.rec[s.current]);
  }

  lemma {:induction false} LevelsNeverRise(r: seq<State>, a: nat, n: nat, x: nat)
    requires IsRun(r) && a + n < |r| && Quiet(r[a]) && x < |r[a].rec|
    ensures |r[a + n].rec| == |r[a].rec| && r[a + n].rec[x].level >= r[a].rec[x].level
    decreases n
  {
    if n == 0 {
    } else {
      LevelsNeverRise(r, a, n - 1, x);
      QuietRun(r, a, n - 1);
      assert TickAt(r, a + n - 1);
      CountsDoNotUnderflow(r[a + n - 1], x);
    }
  }

  // ---------------------------------------------------------------- one round

  /** The first foreground task is running. */
  ghost predicate Start(s: State) {
    Quiet(s) && s.current == s.q[0][0]
  }

  predicate Background(s: State)
    requires |s.q| == 6
  {
    s.q[1] != [] || s.q[2] != [] || s.q[3] != []
  }

  /** The state after the head of the lowest occupied level has had its turn. */
  function Served(s: State): State
    requires Runnable(s) && FindBack(s).Some? && FindBack(s).value < |s.rec|
  {
    Turned(s.(current := FindBack(s).value)).(current := s.q[0][0])
  }

  /** A tick while a foreground task runs, not the last one. */
  lemma ForegroundTick(s: State, i: nat)
    requires Start(s) && i + 1 < |s.q[0]| && Quiet(s.(current := s.q[0][i]))
    ensures Runnable(s) && Tick(s.(current := s.q[0][i])) == s.(current := s.q[0][i + 1])
  {
    QuietTick(s.(current := s.q[0][i]));
    QueuedAreReady(s, 0, s.q[0][i]);
    assert Agrees(s, 0);
    PosOf(s.q[0], i);
  }

  /** The i-th tick of a round runs the i-th task of the foreground. */
  lemma {:induction false} ForegroundInTurn(r: seq<State>, a: nat, i: nat)
    requires IsRun(r) && a + i < |r| && Start(r[a]) && i < |r[a].q[0]|
    ensures r[a + i] == r[a].(current := r[a].q[0][i]) && Quiet(r[a + i])
    decreases i
  {
    QuietRun(r, a, i);
    if i == 0 {
    } else {
      ForegroundInTurn(r, a, i - 1);
      assert TickAt(r, a + i - 1);
      ForegroundTick(r[a], i - 1);
    }
  }

  lemma EachOnce(r: seq<State>, a: nat)
    requires IsRun(r) && a < |r| && Start(r[a]) && a + |r[a].q[0]| < |r|
    ensures forall i :: 0 <= i < |r[a].q[0]| ==> r[a + i].current == r[a].q[0][i]
  {
    forall i | 0 <= i < |r[a].q[0]| ensures r[a + i].current == r[a].q[0][i] {
      ForegroundInTurn(r, a, i);
    }
  }

  lemma IntoTheBackground(r: seq<State>, a: nat)
    requires IsRun(r) && a < |r| && Start(r[a]) && Background(r[a]) && a + |r[a].q[0]| < |r|
    ensures FindBack(r[a]).Some? && FindBack(r[a]).value < |r[a].rec| && Runnable(r[a])
    ensures r[a + |r[a].q[0]|] == r[a].(current := FindBack(r[a]).value)
    ensures FindBack(r[a]).value in r[a].q[1] || FindBack(r[a]).value in r[a].q[2] || FindBack(r[a]).value in r[a].q[3]
  {
    var m := |r[a].q[0]|;
    ForegroundInTurn(r, a, m - 1);
    assert TickAt(r, a + m - 1);
    LastForegroundTick(r[a]);
  }

  lemma Turnaround(r: seq<State>, a: nat)
    requires IsRun(r) && a < |r| && Start(r[a]) && Background(r[a]) && a + |r[a].q[0]| + 1 < |r|
    ensures FindBack(r[a]).Some? && FindBack(r[a]).value < |r[a].rec| && Runnable(r[a])
    ensures r[a + |r[a].q[0]|] == r[a].(current := FindBack(r[a]).value)
    ensures FindBack(r[a]).value in r[a].q[1] || FindBack(r[a]).value in r[a].q[2] || FindBack(r[a]).value in r[a].q[3]
    ensures r[a + |r[a].q[0]| + 1] == Served(r[a]) && Start(Served(r[a])) && Served(r[a]).q[0] == r[a].q[0]
  {
    var m := |r[a].q[0]|;
    IntoTheBackground(r, a);
    assert TickAt(r, a + m);
    QuietRun(r, a, m);
    BackToTheForeground(r[a], r[a + m]);
  }

  /** Between two background ticks every foreground task runs exactly once, in order; the background tick goes
      to the head of the lowest occupied level; and the next round begins with the same foreground. */
  lemma OneRound(r: seq<State>, a: nat)
    requires IsRun(r) && a < |r| && Start(r[a]) && Background(r[a]) && a + |r[a].q[0]| + 1 < |r|
    ensures var s, m := r[a], |r[a].q[0]|;
      && (forall i :: 0 <= i < m ==> r[a + i].current == s.q[0][i])
      && FindBack(s).Some? && FindBack(s).value < |s.rec| && Runnable(s)
      && r[a + m] == s.(current := FindBack(s).value)
      && (r[a + m].current in s.q[1] || r[a + m].current in s.q[2] || r[a + m].current in s.q[3])
      && r[a + m + 1] == Served(s) && Start(Served(s)) && Served(s).q[0] == s.q[0]
  {
    EachOnce(r, a);
    Turnaround(r, a);
  }

  /** A tick while the last foreground task runs. */
  lemma LastForegroundTick(s: State)
    requires Start(s) && Background(s) && Quiet(s.(current := s.q[0][|s.q[0]| - 1]))
    ensures FindBack(s).Some? && FindBack(s).value < |s.rec| && Runnable(s)
    ensures Tick(s.(current := s.q[0][|s.q[0]| - 1])) == s.(current := FindBack(s).value)
    ensures FindBack(s).value in s.q[1] || FindBack(s).value in s.q[2] || FindBack(s).value in s.q[3]
  {
    var m := |s.q[0]|;
    QuietTick(s.(current := s.q[0][m - 1]));
    QueuedAreReady(s, 0, s.q[0][m - 1]);
    FindBackIs(s);
    assert Agrees(s, 0) && Agrees(s, 1) && Agrees(s, 2) && Agrees(s, 3);
    PosOf(s.q[0], m - 1);
  }

  lemma BackToTheForeground(s: State, r: State)
    requires Start(s) && Runnable(s) && FindBack(s).Some? && FindBack(s).value < |s.rec|
    requires FindBack(s).value in s.q[1] || FindBack(s).value in s.q[2] || FindBack(s).value in s.q[3]
    requires r == s.(current := FindBack(s).value) && Quiet(r)
    ensures Runnable(r) && Tick(r) == Served(s) && Start(Served(s)) && Served(s).q[0] == s.q[0]
  {
    QuietTick(r);
    var x := r.current;
    var k := if x in s.q[1] then 1 else if x in s.q[2] then 2 else 3;
    QueuedAreReady(s, k, x);
  }

  // ---------------------------------------------------------------- how a level drains

  /** The counts that the tasks of a queue have left, taken together. */
  function Left(rec: seq<Task>, q: seq<nat>): nat {
    if q == [] then 0 else (if q[0] < |rec| then rec[q[0]].count else 0) + Left(rec, q[1..])
  }

  lemma {:induction false} LeftSame(rec: seq<Task>, rec': seq<Task>, q: seq<nat>)
    requires |rec'| == |rec| && forall x :: x in q && x < |rec| ==> rec'[x] == rec[x]
    ensures Left(rec', q) == Left(rec, q)
  {
    if q == [] {
    } else {
      LeftSame(rec, rec', q[1..]);
    }
  }

  lemma {:induction false} LeftOfAppended(rec: seq<Task>, q: seq<nat>, x: nat)
    requires x < |rec|
    ensures Left(rec, q + [x]) == Left(rec, q) + rec[x].count
  {
    if q == [] {
      assert Left(rec, [x]) == rec[x].count + Left(rec, [x][1..]);
    } else {
      LeftOfAppended(rec, q[1..], x);
      assert (q + [x])[1..] == q[1..] + [x];
    }
  }

  /** Level k is the lowest one that may be occupied. */
  ghost predicate Lowest(s: State, k: nat) {
    Start(s) && 1 <= k <= 3 && forall j :: 1 <= j < k ==> s.q[j] == []
  }

  /** The head x of level k has its turn: it is charged and goes to the tail of its level or of the next one. */
  lemma ServedIs(s: State, k: nat)
    requires Lowest(s, k) && k <= 2 && s.q[k] != []
    ensures FindBack(s) == Some(s.q[k][0]) && s.q[k][0] < |s.rec| && Runnable(s)
    ensures var x, r := s.q[k][0], Served(s);
      var t := Charged(s.rec[x]);
      && r.rec == s.rec[x := t] && s.rec[x].count > 0 && s.rec[x].level == k
      && r.q[k] == (if t.level == k then s.q[k][1..] + [x] else s.q[k][1..])
      && r.q[k + 1] == (if t.level == k then s.q[k + 1] else s.q[k + 1] + [x])
      && forall j :: 1 <= j < k ==> r.q[j] == []
  {
    var x := s.q[k][0];
    FindBackIs(s);
    QueuedAreReady(s, k, x);
    assert TaskOk(s.rec[x]) && Agrees(s, k) && Agrees(s, k + 1) && Agrees(s, 0);
    WithoutFirst(s.q[k]);
  }

  lemma LeftAfterTurn(rec: seq<Task>, q: seq<nat>, t: Task)
    requires q != [] && NoDup(q) && q[0] < |rec|
    ensures Left(rec[q[0] := t], q[1..]) == Left(rec, q) - rec[q[0]].count
    ensures Left(rec[q[0] := t], q[1..] + [q[0]]) == Left(rec, q) - rec[q[0]].count + t.count
  {
    LeftSame(rec, rec[q[0] := t], q[1..]);
    LeftOfAppended(rec[q[0] := t], q[1..], q[0]);
  }

  /** So a round takes exactly one from what level k has left. */
  lemma OneServing(s: State, k: nat)
    requires Lowest(s, k) && k <= 2 && s.q[k] != []
    requires FindBack(s).Some? && FindBack(s).value < |s.rec| && Runnable(s) && Start(Served(s))
    ensures Lowest(Served(s), k)
    ensures Left(Served(s).rec, Served(s).q[k]) == Left(s.rec, s.q[k]) - 1
    ensures forall x :: x in s.q[k] || x in s.q[k + 1] ==> x in Served(s).q[k] || x in Served(s).q[k + 1]
  {
    ServedIs(s, k);
    LeftAfterTurn(s.rec, s.q[k], Charged(s.rec[s.q[k][0]])) by {
      assert Agrees(s, k);
    }
  }

  /** n rounds, each as long as the foreground and one tick more. */
  function RoundTicks(s: State, n: nat): nat
    requires |s.q| > 0
  {
    Times(n, |s.q[0]| + 1)
  }

  /** As long as level k has counts left, n rounds take exactly n of them. */
  lemma {:induction false} Draining(r: seq<State>, a: nat, k: nat, n: nat)
    requires IsRun(r) && a < |r| && Lowest(r[a], k) && k <= 2 && n <= Left(r[a].rec, r[a].q[k])
    requires a + RoundTicks(r[a], n) < |r|
    ensures var s, t := r[a], r[a + RoundTicks(r[a], n)];
      && Lowest(t, k) && t.q[0] == s.q[0] && Left(t.rec, t.q[k]) == Left(s.rec, s.q[k]) - n
      && forall x :: x in s.q[k] ==> x in t.q[k] || x in t.q[k + 1]
    decreases n
  {
    if n == 0 {
    } else {
      Draining(r, a, k, n - 1);
      var b := a + RoundTicks(r[a], n - 1);
      OccupiedHasCounts(r[b], k);
      OneRound(r, b);
      OneServing(r[b], k);
    }
  }

  /** A level with a task in it has counts left. */
  lemma OccupiedHasCounts(s: State, k: nat)
    requires QueuesOk(s) && 1 <= k <= 3
    ensures s.q[k] != [] <==> Left(s.rec, s.q[k]) > 0
  {
    if s.q[k] != [] {
      QueuedAreReady(s, k, s.q[k][0]);
      assert TaskOk(s.rec[s.q[k][0]]);
    }
  }

  /** The lowest occupied level, 1 or 2, is empty after exactly as many rounds as its tasks have counts left,
      and not before; all its tasks are then one level further down. */
  lemma LevelDrains(r: seq<State>, a: nat, k: nat)
    requires IsRun(r) && a < |r| && Lowest(r[a], k) && k <= 2 && a + RoundTicks(r[a], Left(r[a].rec, r[a].q[k])) < |r|
    ensures forall n: nat :: n < Left(r[a].rec, r[a].q[k]) ==> OccupiedAfter(r, a, k, n)
    ensures var t := r[a + RoundTicks(r[a], Left(r[a].rec, r[a].q[k]))];
      |t.q| == 6 && t.q[k] == [] && Lowest(t, k + 1) && forall x :: x in r[a].q[k] ==> x in t.q[k + 1]
  {
    var all := Left(r[a].rec, r[a].q[k]);
    forall n: nat | n < all ensures OccupiedAfter(r, a, k, n) {
      TimesGrows(n, all, |r[a].q[0]| + 1);
      Draining(r, a, k, n);
      OccupiedHasCounts(r[a + RoundTicks(r[a], n)], k);
    }
    Draining(r, a, k, all);
    OccupiedHasCounts(r[a + RoundTicks(r[a], all)], k);
  }

  /** After n rounds from state a on, level k is not empty. */
  ghost predicate OccupiedAfter(r: seq<State>, a: nat, k: nat, n: nat)
    requires a < |r| && |r[a].q| > 0 && k < 6
  {
    a + RoundTicks(r[a], n) < |r| && |r[a + RoundTicks(r[a], n)].q| == 6 && r[a + RoundTicks(r[a], n)].q[k] != []
  }

  /** At the last level only the head is ever served: every round ends where it began. */
  lemma {:induction false} LastLevelServesItsHeadOnly(r: seq<State>, a: nat, n: nat)
    requires IsRun(r) && a < |r| && Lowest(r[a], 3) && r[a].q[3] != [] && a + RoundTicks(r[a], n) < |r|
    ensures r[a + RoundTicks(r[a], n)] == r[a]
    ensures FindBack(r[a]) == Some(r[a].q[3][0])
    decreases n
  {
    LastServed(r[a]);
    if n == 0 {
    } else {
      LastLevelServesItsHeadOnly(r, a, n - 1);
      OneRound(r, a + RoundTicks(r[a], n - 1));
    }
  }

  lemma LastServed(s: State)
    requires Lowest(s, 3) && s.q[3] != []
    ensures FindBack(s) == Some(s.q[3][0]) && s.q[3][0] < |s.rec| && Runnable(s) && Served(s) == s
  {
    InvIsRunnable(s);
    FindBackIs(s);
    QueuedAreReady(s, 3, s.q[3][0]);
  }
}

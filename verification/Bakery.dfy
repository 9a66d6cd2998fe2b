/** The lock of kernel/lock/mylock.c: Lamport's bakery with slots claimed on demand.

    Any number of processes share N slots. A step is one read or one write of a shared
    array element, as the C text performs them: the maximum scan reads number[j] once to
    compare and once more to copy, and the wait loop reads number[j] up to three times.
    Only the claim of a slot is one step, because interrupts are off there. */
module Bakery {

  /** Where a process stands in do_lock and do_unlock; each name says which access comes next. */
  datatype Pc =
    | Idle
    | SetChoosing
    | ScanCompare(j: nat)      // number[j] > temp ?
    | ScanCopy(j: nat)         // temp = number[j]
    | WriteNumber
    | ClearChoosing
    | WaitChoosing(j: nat)     // choosing[j] ?
    | WaitZero(j: nat)         // number[j] != 0 ?
    | WaitLess(j: nat)         // number[j] < number[i] ?
    | WaitEqual(j: nat)        // number[j] == number[i] ?
    | Critical
    | Seek(j: nat)             // hashMap[j] == pid ?
    | ZeroNumber(j: nat)
    | FreeSlot(j: nat)
  {
    predicate InDoorway() {
      ScanCompare? || ScanCopy? || WriteNumber? || ClearChoosing?
    }

    predicate Waiting() {
      WaitChoosing? || WaitZero? || WaitLess? || WaitEqual?
    }

    /** From do_lock's return until do_unlock clears the ticket. */
    predicate Inside() {
      Critical? || Seek? || ZeroNumber?
    }

    predicate HasTicket() {
      ClearChoosing? || Waiting() || Inside()
    }

    /** The process has seen choosing[i] clear, and is still bound by it. */
    predicate PastChoosing(i: nat) {
      match this
      case WaitChoosing(j) => i < j
      case WaitZero(j) => i <= j
      case WaitLess(j) => i <= j
      case WaitEqual(j) => i <= j
      case _ => Inside()
    }

    /** The process is through with slot i. */
    predicate Past(i: nat) {
      match this
      case WaitChoosing(j) => i < j
      case WaitZero(j) => i < j
      case WaitLess(j) => i < j
      case WaitEqual(j) => i < j
      case _ => Inside()
    }

    predicate IndexBelow(n: nat) {
      match this
      case ScanCompare(j) => j < n
      case ScanCopy(j) => j < n
      case WaitChoosing(j) => j < n
      case WaitZero(j) => j < n
      case WaitLess(j) => j < n
      case WaitEqual(j) => j < n
      case Seek(j) => j < n
      case ZeroNumber(j) => j < n
      case FreeSlot(j) => j < n
      case _ => true
    }
  }

  /** A process: its position and its locals i and temp. */
  datatype Proc = Proc(pc: Pc, slot: nat, temp: nat)

  /** The lock and its clients; a process's pid is its index in procs. */
  datatype State = State(hashMap: seq<int>, number: seq<nat>, choosing: seq<bool>, procs: seq<Proc>)

  predicate Sized(s: State) {
    |s.hashMap| == |s.number| == |s.choosing| > 0
  }

  /** CMP_PAIR */
  predicate Before(x1: nat, y1: nat, x2: nat, y2: nat) {
    x1 < x2 || (x1 == x2 && y1 < y2)
  }

  /** init_lock, with every process outside. */
  function Init(n: nat, clients: nat): State {
    State(seq(n, _ => -1), seq(n, _ => 0), seq(n, _ => false), seq(clients, _ => Proc(Idle, 0, 0)))
  }

  /** The first free slot from j on. */
  function FirstFree(hashMap: seq<int>, j: nat): (r: nat)
    requires j <= |hashMap|
    ensures j <= r <= |hashMap|
    ensures r < |hashMap| ==> hashMap[r] < 0
    ensures forall k :: j <= k < r ==> hashMap[k] >= 0
    decreases |hashMap| - j
  {
    if j == |hashMap| || hashMap[j] < 0 then j else FirstFree(hashMap, j + 1)
  }

  /** The slot a claim by pid would get: its hash slot, else the first free one; N when there is none. */
  function ClaimTarget(hashMap: seq<int>, pid: nat): (r: nat)
    requires |hashMap| > 0
    ensures r <= |hashMap|
    ensures r < |hashMap| ==> hashMap[r] < 0
    ensures hashMap[pid % |hashMap|] < 0 ==> r == pid % |hashMap|
    ensures hashMap[pid % |hashMap|] >= 0 ==> forall k :: 0 <= k < r ==> hashMap[k] >= 0
  {
    if hashMap[pid % |hashMap|] < 0 then pid % |hashMap| else FirstFree(hashMap, 0)
  }

  function Goto(s: State, p: nat, pc: Pc): State
    requires p < |s.procs|
  {
    s.(procs := s.procs[p := s.procs[p].(pc := pc)])
  }

  /** The scan moves on to the next slot, or to the ticket. */
  function AfterScan(j: nat, n: nat): Pc {
    if j + 1 < n then ScanCompare(j + 1) else WriteNumber
  }

  /** The wait loop moves on to the next slot, or do_lock returns. */
  function AfterWait(j: nat, n: nat): Pc {
    if j + 1 < n then WaitChoosing(j + 1) else Critical
  }

  /** One step of process p. `freed` is what do_unlock writes into hashMap. */
  function Next(s: State, p: nat, freed: int): State
    requires Sized(s) && p < |s.procs|
    requires s.procs[p].slot < |s.hashMap| && s.procs[p].pc.IndexBelow(|s.hashMap|)
  {
    var n, me, i := |s.hashMap|, s.procs[p], s.procs[p].slot;
    match me.pc
    case Idle =>
      var k := ClaimTarget(s.hashMap, p);
      if k == n then s
      else s.(hashMap := s.hashMap[k := p], procs := s.procs[p := Proc(SetChoosing, k, 0)])
    case SetChoosing => Goto(s, p, ScanCompare(0)).(choosing := s.choosing[i := true])
    case ScanCompare(j) => Goto(s, p, if s.number[j] > me.temp then ScanCopy(j) else AfterScan(j, n))
    case ScanCopy(j) => s.(procs := s.procs[p := Proc(AfterScan(j, n), i, s.number[j])])
    case WriteNumber => Goto(s, p, ClearChoosing).(number := s.number[i := me.temp + 1])
    case ClearChoosing => Goto(s, p, WaitChoosing(0)).(choosing := s.choosing[i := false])
    case WaitChoosing(j) => if s.choosing[j] then s else Goto(s, p, WaitZero(j))
    case WaitZero(j) => Goto(s, p, if s.number[j] != 0 then WaitLess(j) else AfterWait(j, n))
    case WaitLess(j) => Goto(s, p, if s.number[j] < s.number[i] then WaitZero(j) else WaitEqual(j))
    case WaitEqual(j) => Goto(s, p, if s.number[j] == s.number[i] && j < i then WaitZero(j) else AfterWait(j, n))
    case Critical => Goto(s, p, Seek(0))
    case Seek(j) => Goto(s, p, if s.hashMap[j] == p then ZeroNumber(j) else if j + 1 < n then Seek(j + 1) else Idle)
    case ZeroNumber(j) => Goto(s, p, FreeSlot(j)).(number := s.number[j := 0])
    case FreeSlot(j) => Goto(s, p, Idle).(hashMap := s.hashMap[j := freed])
  }

  predicate CanStep(s: State, p: nat) {
    Sized(s) && p < |s.procs| && s.procs[p].slot < |s.hashMap| && s.procs[p].pc.IndexBelow(|s.hashMap|)
  }

  /** The state after the processes named by the schedule have stepped in that order. */
  ghost function Steps(s: State, schedule: seq<nat>, freed: int): (t: State)
    ensures |t.procs| == |s.procs| && |t.hashMap| == |s.hashMap|
    decreases |schedule|
  {
    if schedule == [] then s
    else
      var u, p := Steps(s, schedule[..|schedule| - 1], freed), schedule[|schedule| - 1];
      if CanStep(u, p) then Next(u, p, freed) else u
  }

  // ---------------------------------------------------------------------------------------
  // The invariant

  /** What holds of one process on its own. */
  ghost predicate Own(s: State, p: nat)
    requires Sized(s) && p < |s.procs|
  {
    var me := s.procs[p];
    && me.slot < |s.hashMap| && me.pc.IndexBelow(|s.hashMap|)
    && (!me.pc.Idle? ==>
          && s.hashMap[me.slot] == p
          && (s.choosing[me.slot] <==> me.pc.InDoorway())
          && (s.number[me.slot] > 0 <==> me.pc.HasTicket()))
    && (me.pc.Seek? ==> me.pc.j <= me.slot)
    && (me.pc.ZeroNumber? ==> me.pc.j <= me.slot && s.hashMap[me.pc.j] == p)
    && (me.pc.FreeSlot? ==> me.pc.j == me.slot)
  }

  /** Slot j is that of the process it shows. */
  predicate Owned(s: State, j: nat)
    requires j < |s.hashMap|
  {
    var h := s.hashMap[j];
    0 <= h < |s.procs| && !s.procs[h].pc.Idle? && s.procs[h].slot == j
  }

  /** A slot that is not some process's is blank. */
  ghost predicate SlotOk(s: State, freed: int, j: nat)
    requires Sized(s) && j < |s.hashMap|
  {
    Owned(s, j) || ((s.hashMap[j] < 0 || s.hashMap[j] == freed) && s.number[j] == 0 && !s.choosing[j])
  }

  /** p, in the doorway, cannot end up with a ticket that q's ticket does not precede. */
  ghost predicate WillExceed(s: State, p: nat, ticket: nat, slot: nat)
    requires Sized(s) && p < |s.procs| && s.procs[p].pc.IndexBelow(|s.hashMap|)
  {
    var me := s.procs[p];
    match me.pc
    case ScanCompare(j) => slot < j ==> ticket <= me.temp
    case ScanCopy(j) => slot < j ==> ticket <= me.temp < s.number[j]
    case WriteNumber => ticket <= me.temp
    case _ => true
  }

  /** What q has made sure of about p. */
  ghost predicate Between(s: State, q: nat, p: nat)
    requires Sized(s) && p < |s.procs| && q < |s.procs| && Own(s, p) && Own(s, q)
  {
    var i, j := s.procs[q].slot, s.procs[p].slot;
    var a, b := s.procs[q].pc, s.procs[p].pc;
    !a.Idle? && !b.Idle? ==>
      && (a.PastChoosing(j) ==> WillExceed(s, p, s.number[i], i))
      && (a == WaitEqual(j) && b.HasTicket() ==> s.number[i] <= s.number[j])
      && (a.Past(j) && b.HasTicket() ==> Before(s.number[i], i, s.number[j], j))
  }

  ghost predicate Inv(s: State, freed: int) {
    && Sized(s)
    && (forall p :: 0 <= p < |s.procs| ==> Own(s, p))
    && (forall j :: 0 <= j < |s.hashMap| ==> SlotOk(s, freed, j))
    && (forall q, p :: 0 <= q < |s.procs| && 0 <= p < |s.procs| && q != p ==> Between(s, q, p))
  }

  /** do_unlock is about to give back the ticket of a slot that is not the caller's. */
  predicate Loses(s: State, p: nat)
    requires p < |s.procs|
  {
    s.procs[p].pc.ZeroNumber? && s.procs[p].pc.j != s.procs[p].slot
  }

  /** p is one of the processes, and does not lose its ticket. */
  ghost predicate MayStep(s: State, p: nat, freed: int) {
    Inv(s, freed) && p < |s.procs| && Own(s, p) && !Loses(s, p)
  }

  /** Only a process whose pid is also the mark that do_unlock leaves can lose its ticket. */
  lemma OnlyTheMarkLoses(s: State, p: nat, freed: int)
    requires Inv(s, freed) && p < |s.procs| && Loses(s, p)
    ensures p == freed && Own(s, p) && CanStep(s, p)
  {
    assert Own(s, p) && SlotOk(s, freed, s.procs[p].pc.j);
  }

  lemma InitInv(n: nat, clients: nat, freed: int)
    requires n > 0
    ensures Inv(Init(n, clients), freed)
    ensures forall j :: 0 <= j < n ==> Init(n, clients).hashMap[j] == -1
  {
  }

  lemma OwnKeptByMover(s: State, p: nat, freed: int)
    requires MayStep(s, p, freed)
    ensures var t := Next(s, p, freed);
      Sized(t) && |t.hashMap| == |s.hashMap| && |t.procs| == |s.procs| && Own(t, p)
  {
    var pc := s.procs[p].pc;
    if pc.Idle? {
      OwnAfterClaim(s, p, freed);
    }
  }

  lemma OwnAfterClaim(s: State, p: nat, freed: int)
    requires MayStep(s, p, freed) && s.procs[p].pc.Idle?
    ensures var t := Next(s, p, freed);
      Sized(t) && |t.hashMap| == |s.hashMap| && |t.procs| == |s.procs| && Own(t, p)
  {
    if ClaimTarget(s.hashMap, p) < |s.hashMap| {
      assert SlotOk(s, freed, ClaimTarget(s.hashMap, p));
    }
  }

  lemma OwnKeptByBystander(s: State, p: nat, freed: int, q: nat)
    requires MayStep(s, p, freed) && q < |s.procs| && q != p && Own(s, q)
    requires var t := Next(s, p, freed); Sized(t) && |t.hashMap| == |s.hashMap| && |t.procs| == |s.procs|
    ensures Own(Next(s, p, freed), q)
  {
    assert s.procs[q].pc.Idle? || s.procs[p].pc.Idle? || s.procs[q].slot != s.procs[p].slot;
  }

  lemma OwnKept(s: State, p: nat, freed: int)
    requires MayStep(s, p, freed)
    ensures var t := Next(s, p, freed);
      Sized(t) && |t.hashMap| == |s.hashMap| && |t.procs| == |s.procs| && forall q :: 0 <= q < |t.procs| ==> Own(t, q)
  {
    OwnKeptByMover(s, p, freed);
    forall q | 0 <= q < |s.procs| && q != p ensures Own(Next(s, p, freed), q) {
      assert Own(s, q);
      OwnKeptByBystander(s, p, freed, q);
    }
  }

  lemma SlotsKept(s: State, p: nat, freed: int)
    requires MayStep(s, p, freed)
    ensures var t := Next(s, p, freed);
      Sized(t) && |t.hashMap| == |s.hashMap| && forall j :: 0 <= j < |t.hashMap| ==> SlotOk(t, freed, j)
  {
    var t := Next(s, p, freed);
    assert Own(s, p);
    forall j | 0 <= j < |t.hashMap| ensures SlotOk(t, freed, j) {
      assert SlotOk(s, freed, j);
    }
  }

  /** What q knows about p when p itself steps. */
  lemma KnownAfterStep(s: State, p: nat, freed: int, q: nat)
    requires MayStep(s, p, freed) && q < |s.procs| && q != p && Own(s, q) && Between(s, q, p)
    requires var t := Next(s, p, freed); Sized(t) && |t.procs| == |s.procs| && Own(t, p) && Own(t, q)
    ensures Between(Next(s, p, freed), q, p)
  {
    assert s.procs[q].pc.Idle? || s.procs[p].pc.Idle? || s.procs[q].slot != s.procs[p].slot;
    if s.procs[p].pc.InDoorway() {
      KnownInDoorway(s, p, freed, q);
    }
  }

  lemma KnownInDoorway(s: State, p: nat, freed: int, q: nat)
    requires MayStep(s, p, freed) && q < |s.procs| && q != p && Own(s, q) && Between(s, q, p)
    requires var t := Next(s, p, freed); Sized(t) && |t.procs| == |s.procs| && Own(t, p) && Own(t, q)
    requires s.procs[p].pc.InDoorway()
    ensures Between(Next(s, p, freed), q, p)
  {
    assert s.procs[q].pc.Idle? || s.procs[q].slot != s.procs[p].slot;
  }

  /** What p knows about q when p itself steps. */
  lemma LearnedByStep(s: State, p: nat, freed: int, q: nat)
    requires MayStep(s, p, freed) && q < |s.procs| && q != p && Own(s, q) && Between(s, p, q)
    requires var t := Next(s, p, freed); Sized(t) && |t.procs| == |s.procs| && Own(t, p) && Own(t, q)
    ensures Between(Next(s, p, freed), p, q)
  {
    if s.procs[p].pc.Waiting() {
      LearnedByWaiting(s, p, freed, q);
    } else {
      assert s.procs[q].pc.Idle? || s.procs[p].pc.Idle? || s.procs[q].slot != s.procs[p].slot;
    }
  }

  lemma LearnedByWaiting(s: State, p: nat, freed: int, q: nat)
    requires MayStep(s, p, freed) && q < |s.procs| && q != p && Own(s, q) && Between(s, p, q)
    requires s.procs[p].pc.Waiting()
    requires var t := Next(s, p, freed); Sized(t) && |t.procs| == |s.procs| && Own(t, p) && Own(t, q)
    ensures Between(Next(s, p, freed), p, q)
  {
    assert s.procs[q].pc.Idle? || s.procs[q].slot != s.procs[p].slot;
    var t := Next(s, p, freed);
    assert t.number == s.number && t.choosing == s.choosing && t.procs[q] == s.procs[q];
  }

  /** Two bystanders. Only the release of a ticket can matter to them, and the releasing process precedes both. */
  lemma BystandersUnmoved(s: State, r: nat, freed: int, q: nat, p: nat)
    requires MayStep(s, r, freed)
    requires q < |s.procs| && p < |s.procs| && q != p && r != q && r != p
    requires Own(s, p) && Own(s, q) && Between(s, q, p) && Between(s, r, q)
    requires var t := Next(s, r, freed); Sized(t) && |t.procs| == |s.procs| && Own(t, p) && Own(t, q)
    ensures Between(Next(s, r, freed), q, p)
  {
    var t := Next(s, r, freed);
    if !s.procs[q].pc.Idle? && !s.procs[p].pc.Idle? {
      assert t.procs[q] == s.procs[q] && t.procs[p] == s.procs[p];
      assert t.number[s.procs[q].slot] == s.number[s.procs[q].slot];
      assert t.number[s.procs[p].slot] == s.number[s.procs[p].slot];
    }
  }

  lemma InvKept(s: State, p: nat, freed: int)
    requires MayStep(s, p, freed)
    ensures Inv(Next(s, p, freed), freed)
  {
    var t := Next(s, p, freed);
    OwnKept(s, p, freed);
    SlotsKept(s, p, freed);
    forall a, b | 0 <= a < |t.procs| && 0 <= b < |t.procs| && a != b
      ensures Between(t, a, b)
    {
      assert Own(s, a) && Own(s, b) && Own(t, a) && Own(t, b) && Between(s, a, b);
      if a == p {
        LearnedByStep(s, p, freed, b);
      } else if b == p {
        KnownAfterStep(s, p, freed, a);
      } else {
        assert Between(s, p, a);
        BystandersUnmoved(s, p, freed, a, b);
      }
    }
  }

  // ---------------------------------------------------------------------------------------
  // Runs

  /** Mutual exclusion in one state. */
  lemma AtMostOneInside(s: State, freed: int, p: nat, q: nat)
    requires Inv(s, freed) && p < |s.procs| && q < |s.procs| && p != q
    ensures !(s.procs[p].pc.Inside() && s.procs[q].pc.Inside())
  {
    assert Own(s, p) && Own(s, q);
    assert Between(s, p, q) && Between(s, q, p);
  }

  /** One step keeps everything in order, or the lock is jammed by the ticket of the process that has stepped. */
  lemma StepKeepsOrJams(s: State, p: nat, freed: int)
    requires Inv(s, freed) && p < |s.procs|
    ensures Own(s, p) && CanStep(s, p)
    ensures if Loses(s, p) then p == freed && Jammed(Next(s, p, freed), s.procs[p].slot)
            else Inv(Next(s, p, freed), freed)
  {
    assert Own(s, p);
    if Loses(s, p) {
      OnlyTheMarkLoses(s, p, freed);
      LosingJams(s, p, freed);
    } else {
      InvKept(s, p, freed);
    }
  }

  /** Over every run from an orderly state, everything stays in order or the lock is jammed; the latter only when
      the mark is some process's pid. */
  lemma {:induction false} OrderlyOrJammed(s: State, schedule: seq<nat>, freed: int)
    requires Inv(s, freed)
    ensures var t := Steps(s, schedule, freed);
      Inv(t, freed) || (0 <= freed < |s.procs| && exists k: nat :: Jammed(t, k))
    decreases |schedule|
  {
    if schedule == [] {
    } else {
      var m := |schedule| - 1;
      var u, p := Steps(s, schedule[..m], freed), schedule[m];
      OrderlyOrJammed(s, schedule[..m], freed);
      if CanStep(u, p) {
        if Inv(u, freed) {
          StepKeepsOrJams(u, p, freed);
        } else {
          var k: nat :| Jammed(u, k);
          JamKept(u, k, p, freed);
        }
      }
    }
  }

  /** Mutual exclusion over every run from init_lock, for any number of slots and processes and any mark. */
  lemma MutualExclusion(n: nat, clients: nat, schedule: seq<nat>, freed: int, p: nat, q: nat)
    requires n > 0 && p < clients && q < clients && p != q
    ensures var t := Steps(Init(n, clients), schedule, freed);
      !(t.procs[p].pc.Inside() && t.procs[q].pc.Inside())
  {
    var t := Steps(Init(n, clients), schedule, freed);
    InitInv(n, clients, freed);
    OrderlyOrJammed(Init(n, clients), schedule, freed);
    if Inv(t, freed) {
      AtMostOneInside(t, freed, p, q);
    } else {
      var k: nat :| Jammed(t, k);
      NobodyInside(t, k);
    }
  }

  // ---------------------------------------------------------------------------------------
  // First come, first served

  /** p holds a ticket, and q, which came later, is bound to wait for it. */
  ghost predicate Ahead(s: State, p: nat, q: nat)
    requires Sized(s) && p < |s.procs| && q < |s.procs| && Own(s, p) && Own(s, q)
  {
    var i, j := s.procs[p].slot, s.procs[q].slot;
    && s.procs[p].pc.HasTicket()
    && WillExceed(s, q, s.number[i], i)
    && (s.procs[q].pc.HasTicket() ==> Before(s.number[i], i, s.number[j], j))
  }

  lemma AheadIsNotOvertaken(s: State, freed: int, p: nat, q: nat)
    requires Inv(s, freed) && p < |s.procs| && q < |s.procs| && p != q && Own(s, p) && Own(s, q)
    requires Ahead(s, p, q)
    ensures !s.procs[q].pc.Inside()
  {
    assert Between(s, q, p);
  }

  lemma AheadKept(s: State, r: nat, freed: int, p: nat, q: nat)
    requires MayStep(s, r, freed) && p < |s.procs| && q < |s.procs| && p != q && Own(s, p) && Own(s, q)
    requires var t := Next(s, r, freed); Sized(t) && |t.procs| == |s.procs| && Own(t, p) && Own(t, q)
    requires Ahead(s, p, q) && Next(s, r, freed).procs[p].pc.HasTicket()
    ensures Ahead(Next(s, r, freed), p, q)
  {
    if r == p {
      assert s.procs[q].pc.Idle? || s.procs[q].slot != s.procs[p].slot;
    } else if r == q {
      assert Between(s, q, p);
      AheadKeptByFollower(s, q, freed, p);
    } else {
      assert Between(s, r, p);
      AheadKeptByOthers(s, r, freed, p, q);
    }
  }

  lemma AheadKeptByFollower(s: State, q: nat, freed: int, p: nat)
    requires MayStep(s, q, freed) && p < |s.procs| && p != q && Own(s, p) && Between(s, q, p)
    requires var t := Next(s, q, freed); Sized(t) && |t.procs| == |s.procs| && Own(t, p) && Own(t, q)
    requires Ahead(s, p, q)
    ensures Ahead(Next(s, q, freed), p, q)
  {
    assert s.procs[q].pc.Idle? || s.procs[q].slot != s.procs[p].slot;
  }

  lemma AheadKeptByOthers(s: State, r: nat, freed: int, p: nat, q: nat)
    requires MayStep(s, r, freed) && p < |s.procs| && q < |s.procs| && p != q && r != p && r != q
    requires Own(s, p) && Own(s, q) && Between(s, r, p)
    requires var t := Next(s, r, freed); Sized(t) && |t.procs| == |s.procs| && Own(t, p) && Own(t, q)
    requires Ahead(s, p, q)
    ensures Ahead(Next(s, r, freed), p, q)
  {
    var t := Next(s, r, freed);
    assert t.procs[p] == s.procs[p] && t.procs[q] == s.procs[q];
    assert t.number[s.procs[p].slot] == s.number[s.procs[p].slot];
    assert !s.procs[q].pc.Idle? ==> t.number[s.procs[q].slot] == s.number[s.procs[q].slot];
  }

  ghost predicate StillAhead(s: State, freed: int, p: nat, q: nat) {
    Inv(s, freed) && p < |s.procs| && q < |s.procs| && Own(s, p) && Own(s, q) && Ahead(s, p, q)
  }

  /** A process that has its ticket before another has begun to choose is not overtaken by it for as
      long as it keeps the ticket. */
  lemma FirstComeFirstServed(s: State, schedule: seq<nat>, freed: int, p: nat, q: nat)
    requires Inv(s, freed) && p < |s.procs| && q < |s.procs| && p != q
    requires s.procs[p].pc.HasTicket() && (s.procs[q].pc.Idle? || s.procs[q].pc.SetChoosing?)
    requires forall k :: 0 <= k <= |schedule| ==> Steps(s, schedule[..k], freed).procs[p].pc.HasTicket()
    ensures !Steps(s, schedule, freed).procs[q].pc.Inside()
  {
    var t := Steps(s, schedule, freed);
    AheadOrJammed(s, schedule, freed, p, q);
    if StillAhead(t, freed, p, q) {
      AheadIsNotOvertaken(t, freed, p, q);
    } else {
      var k: nat :| Jammed(t, k);
      NobodyInside(t, k);
    }
  }

  lemma {:induction false} AheadOrJammed(s: State, schedule: seq<nat>, freed: int, p: nat, q: nat)
    requires Inv(s, freed) && p < |s.procs| && q < |s.procs| && p != q
    requires s.procs[p].pc.HasTicket() && (s.procs[q].pc.Idle? || s.procs[q].pc.SetChoosing?)
    requires forall k :: 0 <= k <= |schedule| ==> Steps(s, schedule[..k], freed).procs[p].pc.HasTicket()
    ensures var t := Steps(s, schedule, freed);
      StillAhead(t, freed, p, q) || (0 <= freed && exists k: nat :: Jammed(t, k))
    decreases |schedule|
  {
    var t := Steps(s, schedule, freed);
    if schedule == [] {
      assert Own(t, p) && Own(t, q);
    } else {
      var m := |schedule| - 1;
      var u, r := Steps(s, schedule[..m], freed), schedule[m];
      forall k | 0 <= k <= m ensures Steps(s, schedule[..m][..k], freed).procs[p].pc.HasTicket() {
        assert schedule[..m][..k] == schedule[..k];
      }
      AheadOrJammed(s, schedule[..m], freed, p, q);
      assert schedule[..|schedule|] == schedule;
      if CanStep(u, r) {
        if StillAhead(u, freed, p, q) {
          AheadAfterStep(u, r, freed, p, q);
        } else {
          var k: nat :| Jammed(u, k);
          JamKept(u, k, r, freed);
        }
      }
    }
  }

  lemma AheadAfterStep(u: State, r: nat, freed: int, p: nat, q: nat)
    requires StillAhead(u, freed, p, q) && CanStep(u, r) && p != q && Next(u, r, freed).procs[p].pc.HasTicket()
    ensures var t := Next(u, r, freed);
      StillAhead(t, freed, p, q) || (0 <= freed && Jammed(t, u.procs[r].slot))
  {
    var t := Next(u, r, freed);
    StepKeepsOrJams(u, r, freed);
    if !Loses(u, r) {
      assert Own(t, p) && Own(t, q);
      AheadKept(u, r, freed, p, q);
    }
  }

  // ---------------------------------------------------------------------------------------
  // Nobody waits for nothing

  ghost predicate DoorwayEmpty(s: State) {
    forall q :: 0 <= q < |s.procs| ==> !s.procs[q].pc.InDoorway()
  }

  /** p waits, and no other ticket comes before p's. */
  ghost predicate Least(s: State, p: nat)
    requires Sized(s) && forall q :: 0 <= q < |s.procs| ==> Own(s, q)
  {
    && p < |s.procs| && Own(s, p) && s.procs[p].pc.Waiting()
    && forall q :: 0 <= q < |s.procs| && q != p && s.procs[q].pc.HasTicket() && Own(s, q) ==>
         Before(s.number[s.procs[p].slot], s.procs[p].slot, s.number[s.procs[q].slot], s.procs[q].slot)
  }

  /** How many accesses the wait loop still needs when no smaller ticket stands in the way. A ticket
      given back between two reads of it sends the loop back once, to read the zero. */
  function Remaining(s: State, p: nat): int
    requires Sized(s) && p < |s.procs| && s.procs[p].pc.IndexBelow(|s.hashMap|)
  {
    var n := |s.hashMap|;
    match s.procs[p].pc
    case WaitChoosing(j) => 5 * (n - j)
    case WaitZero(j) => 5 * (n - j) - 2
    case WaitLess(j) => 5 * (n - j) - if s.number[j] == 0 then 1 else 3
    case WaitEqual(j) => 5 * (n - j) - 4
    case _ => 0
  }

  /** Every access of the least ticket's holder brings it nearer while the doorway is empty. */
  lemma LeastProceeds(s: State, freed: int, p: nat)
    requires MayStep(s, p, freed) && DoorwayEmpty(s) && Least(s, p)
    ensures var t := Next(s, p, freed);
      && Inv(t, freed) && |t.procs| == |s.procs| && Own(t, p)
      && Remaining(t, p) < Remaining(s, p)
      && DoorwayEmpty(t) && (t.procs[p].pc.Critical? || Least(t, p))
  {
    var t := Next(s, p, freed);
    InvKept(s, p, freed);
    OwnKept(s, p, freed);
    NotTurnedBack(s, freed, p, s.procs[p].pc.j);
    assert forall q :: 0 <= q < |s.procs| && q != p ==> t.procs[q] == s.procs[q];
    assert t.number == s.number;
    forall q | 0 <= q < |s.procs| ensures Own(t, q) && Own(s, q) {
    }
  }

  lemma NotTurnedBack(s: State, freed: int, p: nat, j: nat)
    requires MayStep(s, p, freed) && DoorwayEmpty(s) && Least(s, p) && j < |s.hashMap|
    ensures !s.choosing[j]
    ensures s.number[j] != 0 ==> !Before(s.number[j], j, s.number[s.procs[p].slot], s.procs[p].slot)
  {
    assert SlotOk(s, freed, j);
    if Owned(s, j) {
      assert Own(s, s.hashMap[j]);
    }
  }

  /** The state after k steps of p alone. */
  function Alone(s: State, p: nat, freed: int, k: nat): (t: State)
    ensures |t.procs| == |s.procs|
    decreases k
  {
    if k == 0 || !CanStep(s, p) then s else Alone(Next(s, p, freed), p, freed, k - 1)
  }

  /** Running alone, the holder of the least ticket enters within 5N accesses. */
  lemma {:induction false} LeastEnters(s: State, freed: int, p: nat) returns (k: nat)
    requires MayStep(s, p, freed) && DoorwayEmpty(s) && Least(s, p)
    ensures k <= Remaining(s, p) <= 5 * |s.hashMap|
    ensures Alone(s, p, freed, k).procs[p].pc.Critical?
    decreases Remaining(s, p)
  {
    var t := Next(s, p, freed);
    LeastProceeds(s, freed, p);
    if t.procs[p].pc.Critical? {
      k := 1;
      assert Alone(t, p, freed, 0) == t;
    } else {
      var m := LeastEnters(t, freed, p);
      k := m + 1;
    }
  }

  /** With tickets out, the doorway empty and nobody inside, some ticket is the least. */
  lemma SomeoneIsLeast(s: State, freed: int, w: nat) returns (p: nat)
    requires Inv(s, freed) && DoorwayEmpty(s) && w < |s.procs| && s.procs[w].pc.Waiting()
    requires forall q :: 0 <= q < |s.procs| ==> !s.procs[q].pc.Inside()
    ensures (forall q :: 0 <= q < |s.procs| ==> Own(s, q)) && Least(s, p) && MayStep(s, p, freed)
  {
    p := LeastAmong(s, freed, w, |s.procs|);
  }

  /** The least of the tickets held by w and by the first m processes. */
  lemma {:induction false} LeastAmong(s: State, freed: int, w: nat, m: nat) returns (p: nat)
    requires Inv(s, freed) && DoorwayEmpty(s) && w < |s.procs| && s.procs[w].pc.Waiting() && m <= |s.procs|
    requires forall q :: 0 <= q < |s.procs| ==> !s.procs[q].pc.Inside()
    ensures p < |s.procs| && s.procs[p].pc.Waiting() && Own(s, p)
    ensures forall q :: 0 <= q < |s.procs| && (q < m || q == w) && q != p && s.procs[q].pc.HasTicket() && Own(s, q) ==>
      Before(s.number[s.procs[p].slot], s.procs[p].slot, s.number[s.procs[q].slot], s.procs[q].slot)
    decreases m
  {
    assert Own(s, w);
    if m == 0 {
      p := w;
    } else {
      p := LeastAmong(s, freed, w, m - 1);
      var c := m - 1;
      assert Own(s, c) && !s.procs[c].pc.InDoorway() && !s.procs[c].pc.Inside();
      if c != p && s.procs[c].pc.HasTicket() {
        var i, j := s.procs[c].slot, s.procs[p].slot;
        assert i != j;
        if Before(s.number[i], i, s.number[j], j) {
          p := c;
        }
      }
    }
  }

  /** How many steps of its own a process in the doorway still needs; nobody can make it wait there. */
  function DoorwaySteps(pc: Pc, n: nat): int {
    match pc
    case ScanCompare(j) => 2 * (n - j) + 2
    case ScanCopy(j) => 2 * (n - j) + 1
    case WriteNumber => 2
    case ClearChoosing => 1
    case _ => 0
  }

  lemma DoorwayIsWaitFree(s: State, r: nat, freed: int, p: nat)
    requires MayStep(s, r, freed) && p < |s.procs| && s.procs[p].pc.InDoorway() && Own(s, p)
    ensures var t := Next(s, r, freed);
      && |t.procs| == |s.procs|
      && (if r == p then DoorwaySteps(t.procs[p].pc, |s.hashMap|) < DoorwaySteps(s.procs[p].pc, |s.hashMap|)
          else t.procs[p] == s.procs[p])
      && (DoorwaySteps(t.procs[p].pc, |s.hashMap|) == 0 ==> t.procs[p].pc.HasTicket())
  {
  }

  // ---------------------------------------------------------------------------------------
  // What do_unlock leaves behind

  /** do_unlock run to its end by p, from its scan of hashMap at j on. */
  function Unlock(s: State, p: nat, freed: int): State
    requires Sized(s) && p < |s.procs| && s.procs[p].slot < |s.hashMap|
    requires s.procs[p].pc.Seek? && s.procs[p].pc.j < |s.hashMap|
    decreases |s.hashMap| - s.procs[p].pc.j
  {
    var t := Next(s, p, freed);
    if t.procs[p].pc.Seek? then Unlock(t, p, freed)
    else if t.procs[p].pc.ZeroNumber? then Next(Next(t, p, freed), p, freed)
    else t
  }

  /** do_unlock gives back the caller's ticket exactly when no earlier slot shows the caller's pid. The
      code as it stands writes 0 into the slots it frees, so for pid 0 this fails once an earlier slot
      has been used. */
  lemma {:induction false} UnlockFindsOwnSlot(s: State, p: nat, freed: int)
    requires Sized(s) && p < |s.procs| && s.procs[p].slot < |s.hashMap|
    requires s.procs[p].pc.Seek? && s.procs[p].pc.j <= s.procs[p].slot
    requires s.hashMap[s.procs[p].slot] == p && s.number[s.procs[p].slot] > 0
    ensures var t, i := Unlock(s, p, freed), s.procs[p].slot;
      && Sized(t) && |t.hashMap| == |s.hashMap|
      && (t.number[i] == 0 <==> forall j :: s.procs[p].pc.j <= j < i ==> s.hashMap[j] != p)
    decreases |s.hashMap| - s.procs[p].pc.j
  {
    var t := Next(s, p, freed);
    if !t.procs[p].pc.Seek? {
    } else {
      UnlockFindsOwnSlot(t, p, freed);
    }
  }

  lemma Step(s: State, before: seq<nat>, freed: int, p: nat) returns (schedule: seq<nat>)
    requires CanStep(Steps(s, before, freed), p)
    ensures Steps(s, schedule, freed) == Next(Steps(s, before, freed), p, freed)
  {
    schedule := before + [p];
    assert schedule[..|before|] == before;
  }

  /** Slot k holds a ticket without an owner, the least there is, and nobody is inside: whoever comes later gets a
      greater ticket and waits for that one. */
  ghost predicate Jammed(s: State, k: nat) {
    && Sized(s) && k < |s.hashMap| && s.hashMap[k] >= 0 && s.number[k] > 0
    && (forall j :: 0 <= j < |s.hashMap| && j != k ==> s.number[j] == 0 || Before(s.number[k], k, s.number[j], j))
    && (forall p :: 0 <= p < |s.procs| ==> CanStep(s, p) && StuckBehind(s, k, p))
  }

  /** p is outside do_lock, or has a slot of its own and has not come past slot k. */
  ghost predicate StuckBehind(s: State, k: nat, p: nat)
    requires CanStep(s, p) && k < |s.hashMap|
  {
    var me := s.procs[p];
    if me.pc.Idle? then true
    else if me.pc.FreeSlot? then s.hashMap[me.pc.j] == p
    else me.slot != k && s.hashMap[me.slot] == p && NotPast(s, k, me)
  }

  ghost predicate NotPast(s: State, k: nat, me: Proc)
    requires Sized(s) && k < |s.hashMap| && me.slot < |s.hashMap| && me.pc.IndexBelow(|s.hashMap|)
  {
    match me.pc
    case SetChoosing => true
    case ScanCompare(j) => j > k ==> me.temp >= s.number[k]
    case ScanCopy(j) => j > k ==> s.number[j] > 0
    case WriteNumber => me.temp >= s.number[k]
    case ClearChoosing => s.number[me.slot] > 0
    case WaitEqual(j) => j <= k && s.number[me.slot] > 0 && (j == k ==> s.number[me.slot] == s.number[k])
    case _ => me.pc.Waiting() && me.pc.j <= k && s.number[me.slot] > 0
  }

  /** The ticket that its owner has not given back jams the lock: its owner is inside, so it is the least. */
  lemma LosingJams(s: State, p: nat, freed: int)
    requires Inv(s, freed) && p < |s.procs| && Own(s, p) && Loses(s, p)
    ensures Jammed(Next(s, p, freed), s.procs[p].slot)
  {
    var t, k, i := Next(s, p, freed), s.procs[p].slot, s.procs[p].pc.j;
    assert SlotOk(s, freed, i) && !Owned(s, i);
    assert t.number == s.number;
    forall j | 0 <= j < |s.hashMap| && j != k ensures t.number[j] == 0 || Before(t.number[k], k, t.number[j], j) {
      assert SlotOk(s, freed, j);
      if Owned(s, j) {
        assert Own(s, s.hashMap[j]) && Between(s, p, s.hashMap[j]);
      }
    }
    forall q | 0 <= q < |t.procs| ensures CanStep(t, q) && StuckBehind(t, k, q) {
      assert Own(s, q);
      if q != p {
        assert Between(s, p, q) && Between(s, q, p);
      }
    }
  }

  /** Such a lock lets nobody in any more, whatever the schedule. */
  lemma {:induction false} JammedForever(s: State, k: nat, schedule: seq<nat>, freed: int)
    requires Jammed(s, k) && freed >= 0
    ensures var t := Steps(s, schedule, freed);
      Jammed(t, k) && forall p :: 0 <= p < |t.procs| ==> !t.procs[p].pc.Inside()
    decreases |schedule|
  {
    if schedule == [] {
    } else {
      var m := |schedule| - 1;
      var u, p := Steps(s, schedule[..m], freed), schedule[m];
      JammedForever(s, k, schedule[..m], freed);
      if CanStep(u, p) {
        JamKept(u, k, p, freed);
      }
    }
    NobodyInside(Steps(s, schedule, freed), k);
  }

  lemma NobodyInside(s: State, k: nat)
    requires Jammed(s, k)
    ensures forall p :: 0 <= p < |s.procs| ==> !s.procs[p].pc.Inside()
  {
    forall p | 0 <= p < |s.procs| ensures !s.procs[p].pc.Inside() {
      assert StuckBehind(s, k, p);
    }
  }

  lemma JamKept(s: State, k: nat, p: nat, freed: int)
    requires Jammed(s, k) && CanStep(s, p) && freed >= 0
    ensures Jammed(Next(s, p, freed), k)
  {
    var t := Next(s, p, freed);
    TicketsAfter(s, k, p, freed);
    forall q | 0 <= q < |t.procs| ensures CanStep(t, q) && StuckBehind(t, k, q) {
      assert CanStep(s, q) && StuckBehind(s, k, q);
      if q == p {
        StuckAfterStep(s, k, p, freed);
      } else {
        StuckAfterOther(s, k, p, freed, q);
      }
    }
  }

  /** A ticket taken meanwhile is greater than the one without an owner. */
  lemma TicketsAfter(s: State, k: nat, p: nat, freed: int)
    requires Jammed(s, k) && CanStep(s, p) && freed >= 0
    ensures var t := Next(s, p, freed);
      && Sized(t) && |t.hashMap| == |s.hashMap| && |t.procs| == |s.procs|
      && t.hashMap[k] >= 0 && t.number[k] == s.number[k]
      && (forall j :: 0 <= j < |s.hashMap| && j != k ==> t.number[j] == 0 || Before(t.number[k], k, t.number[j], j))
  {
    assert StuckBehind(s, k, p);
  }

  lemma StuckAfterStep(s: State, k: nat, p: nat, freed: int)
    requires Jammed(s, k) && CanStep(s, p) && freed >= 0
    ensures var t := Next(s, p, freed);
      Sized(t) && |t.hashMap| == |s.hashMap| && CanStep(t, p) && StuckBehind(t, k, p)
  {
    assert StuckBehind(s, k, p);
    if s.procs[p].pc.Waiting() {
      StuckWhileWaiting(s, k, p, freed);
    }
  }

  lemma StuckWhileWaiting(s: State, k: nat, p: nat, freed: int)
    requires Jammed(s, k) && CanStep(s, p) && freed >= 0 && s.procs[p].pc.Waiting()
    ensures var t := Next(s, p, freed);
      Sized(t) && |t.hashMap| == |s.hashMap| && CanStep(t, p) && StuckBehind(t, k, p)
  {
    assert StuckBehind(s, k, p);
    assert Before(s.number[k], k, s.number[s.procs[p].slot], s.procs[p].slot);
  }

  lemma StuckAfterOther(s: State, k: nat, p: nat, freed: int, q: nat)
    requires Jammed(s, k) && CanStep(s, p) && freed >= 0 && q < |s.procs| && q != p
    ensures var t := Next(s, p, freed);
      Sized(t) && |t.hashMap| == |s.hashMap| && CanStep(t, q) && StuckBehind(t, k, q)
  {
    var t := Next(s, p, freed);
    TicketsAfter(s, k, p, freed);
    assert CanStep(s, q) && StuckBehind(s, k, q);
    SlotsAfterOther(s, k, p, freed, q);
    if !s.procs[q].pc.Idle? && !s.procs[q].pc.FreeSlot? {
      NotPastStays(s, t, k, s.procs[q]);
    }
  }

  /** What another process does leaves alone the slots that show q, and clears no ticket. */
  lemma SlotsAfterOther(s: State, k: nat, p: nat, freed: int, q: nat)
    requires Jammed(s, k) && CanStep(s, p) && freed >= 0 && q < |s.procs| && q != p
    ensures var t := Next(s, p, freed);
      && t.procs[q] == s.procs[q] && |t.number| == |s.number|
      && (forall j :: 0 <= j < |s.hashMap| && s.hashMap[j] == q ==> t.hashMap[j] == q && t.number[j] == s.number[j])
      && (forall j :: 0 <= j < |s.hashMap| && s.number[j] > 0 ==> t.number[j] > 0)
  {
    assert StuckBehind(s, k, p);
  }

  lemma NotPastStays(s: State, t: State, k: nat, me: Proc)
    requires Sized(s) && k < |s.hashMap| && me.slot < |s.hashMap| && me.pc.IndexBelow(|s.hashMap|)
    requires Sized(t) && |t.hashMap| == |s.hashMap| && NotPast(s, k, me)
    requires t.number[k] == s.number[k] && t.number[me.slot] == s.number[me.slot]
    requires forall j :: 0 <= j < |s.hashMap| && s.number[j] > 0 ==> t.number[j] > 0
    ensures NotPast(t, k, me)
  {
  }

  /** No tickets are out and nobody chooses. */
  predicate Quiet(s: State) {
    Sized(s) && forall j :: 0 <= j < |s.hashMap| ==> s.number[j] == 0 && !s.choosing[j]
  }

  /** p alone scans a quiet lock. */
  lemma {:induction false} ScansAlone(s: State, before: seq<nat>, freed: int, p: nat) returns (schedule: seq<nat>)
    requires var u := Steps(s, before, freed);
      CanStep(u, p) && u.procs[p].pc.ScanCompare? && u.procs[p].temp == 0 && forall j :: 0 <= j < |u.hashMap| ==>
        u.number[j] == 0
    ensures Steps(s, schedule, freed) == Goto(Steps(s, before, freed), p, WriteNumber)
    decreases var u := Steps(s, before, freed); |u.hashMap| - u.procs[p].pc.j
  {
    schedule := Step(s, before, freed, p);
    if !Steps(s, schedule, freed).procs[p].pc.ScanCompare? {
    } else {
      schedule := ScansAlone(s, schedule, freed, p);
    }
  }

  lemma PassesSlot(s: State, before: seq<nat>, freed: int, p: nat) returns (schedule: seq<nat>)
    requires var u := Steps(s, before, freed);
      && CanStep(u, p) && u.procs[p].pc.WaitChoosing? && u.number[u.procs[p].slot] > 0
      && !u.choosing[u.procs[p].pc.j] && (u.procs[p].pc.j != u.procs[p].slot ==> u.number[u.procs[p].pc.j] == 0)
    ensures var u := Steps(s, before, freed);
      Steps(s, schedule, freed) == Goto(u, p, AfterWait(u.procs[p].pc.j, |u.hashMap|))
  {
    var u := Steps(s, before, freed);
    var j := u.procs[p].pc.j;
    schedule := Step(s, before, freed, p);
    schedule := Step(s, schedule, freed, p);
    if j == u.procs[p].slot {
      assert Steps(s, schedule, freed) == Goto(u, p, WaitLess(j));
      schedule := Step(s, schedule, freed, p);
      schedule := Step(s, schedule, freed, p);
    }
  }

  /** p, the only one with a ticket, waits for nobody. */
  lemma {:induction false} WaitsAlone(s: State, before: seq<nat>, freed: int, p: nat) returns (schedule: seq<nat>)
    requires var u := Steps(s, before, freed);
      && CanStep(u, p) && u.procs[p].pc.WaitChoosing? && u.number[u.procs[p].slot] > 0
      && forall j :: 0 <= j < |u.hashMap| ==> !u.choosing[j] && (j != u.procs[p].slot ==> u.number[j] == 0)
    ensures Steps(s, schedule, freed) == Goto(Steps(s, before, freed), p, Critical)
    decreases var u := Steps(s, before, freed); |u.hashMap| - u.procs[p].pc.j
  {
    schedule := PassesSlot(s, before, freed, p);
    if !Steps(s, schedule, freed).procs[p].pc.WaitChoosing? {
    } else {
      schedule := WaitsAlone(s, schedule, freed, p);
    }
  }

  /** do_lock by p on a quiet lock. */
  lemma LocksAlone(s: State, before: seq<nat>, freed: int, p: nat) returns (schedule: seq<nat>)
    requires var u := Steps(s, before, freed);
      Quiet(u) && CanStep(u, p) && u.procs[p].pc.Idle? && ClaimTarget(u.hashMap, p) < |u.hashMap|
    ensures var u, t := Steps(s, before, freed), Steps(s, schedule, freed);
      var k := ClaimTarget(u.hashMap, p);
      t == State(u.hashMap[k := p], u.number[k := 1], u.choosing, u.procs[p := Proc(Critical, k, 0)])
  {
    var u := Steps(s, before, freed);
    schedule := DrawsAlone(s, before, freed, p);
    schedule := WaitsAlone(s, schedule, freed, p);
  }

  /** The first half of do_lock. */
  lemma DrawsAlone(s: State, before: seq<nat>, freed: int, p: nat) returns (schedule: seq<nat>)
    requires var u := Steps(s, before, freed);
      Quiet(u) && CanStep(u, p) && u.procs[p].pc.Idle? && ClaimTarget(u.hashMap, p) < |u.hashMap|
    ensures var u, t := Steps(s, before, freed), Steps(s, schedule, freed);
      var k := ClaimTarget(u.hashMap, p);
      t == State(u.hashMap[k := p], u.number[k := 1], u.choosing, u.procs[p := Proc(WaitChoosing(0), k, 0)])
  {
    var u := Steps(s, before, freed);
    schedule := Step(s, before, freed, p);
    schedule := Step(s, schedule, freed, p);
    schedule := ScansAlone(s, schedule, freed, p);
    schedule := Step(s, schedule, freed, p);
    schedule := Step(s, schedule, freed, p);
    assert Steps(s, schedule, freed).choosing == u.choosing;
  }

  /** do_unlock by pid 0, whose number is also the mark, when slot 0 shows it. */
  lemma UnlocksSlotZero(s: State, before: seq<nat>) returns (schedule: seq<nat>)
    requires var u := Steps(s, before, 0); CanStep(u, 0) && u.procs[0].pc.Critical? && u.hashMap[0] == 0
    ensures Steps(s, schedule, 0) == Goto(Steps(s, before, 0), 0, Idle).(number := Steps(s, before, 0).number[0 := 0])
  {
    var u := Steps(s, before, 0);
    schedule := Step(s, before, 0, 0);
    assert Steps(s, schedule, 0) == Goto(u, 0, Seek(0));
    schedule := Step(s, schedule, 0, 0);
    assert Steps(s, schedule, 0) == Goto(u, 0, ZeroNumber(0));
    schedule := Step(s, schedule, 0, 0);
    assert Steps(s, schedule, 0) == Goto(u, 0, FreeSlot(0)).(number := u.number[0 := 0]);
    schedule := Step(s, schedule, 0, 0);
  }

  /** With the mark 0 that the code writes, the lock is jammed once pid 0 has locked and unlocked it twice. */
  lemma TwoRoundsOfPidZeroJam(n: nat, clients: nat) returns (schedule: seq<nat>)
    requires n >= 2 && clients >= 1
    ensures Jammed(Steps(Init(n, clients), schedule, 0), 1)
  {
    var s := Init(n, clients);
    assert Steps(s, [], 0) == s;
    schedule := LocksAlone(s, [], 0, 0);
    schedule := UnlocksSlotZero(s, schedule);
    var u := Steps(s, schedule, 0);
    assert u.hashMap[0] == 0 && u.hashMap[1] < 0 && FirstFree(u.hashMap, 0) == FirstFree(u.hashMap, 1) == 1;
    schedule := LocksAlone(s, schedule, 0, 0);
    schedule := UnlocksSlotZero(s, schedule);
  }

  /** How many slots have never been claimed, or are free again. */
  function FreeSlots(hashMap: seq<int>): nat {
    if hashMap == [] then 0 else FreeSlots(hashMap[1..]) + if hashMap[0] < 0 then 1 else 0
  }

  lemma {:induction false} FreeSlotsAfterWrite(hashMap: seq<int>, j: nat, v: int)
    requires j < |hashMap|
    ensures FreeSlots(hashMap[j := v]) ==
      FreeSlots(hashMap) - (if hashMap[j] < 0 then 1 else 0) + if v < 0 then 1 else 0
  {
    if j > 0 {
      assert hashMap[j := v][1..] == hashMap[1..][j - 1 := v];
      FreeSlotsAfterWrite(hashMap[1..], j - 1, v);
    } else {
      assert hashMap[0 := v][1..] == hashMap[1..];
    }
  }

  /** How often do_lock claimed a slot in the course of a run. */
  ghost function Claims(s: State, schedule: seq<nat>, freed: int): nat
    decreases |schedule|
  {
    if schedule == [] then 0
    else
      var m := |schedule| - 1;
      var u, v, p := Steps(s, schedule[..m], freed), Steps(s, schedule, freed), schedule[m];
      Claims(s, schedule[..m], freed) +
      if p < |s.procs| && u.procs[p].pc.Idle? && v.procs[p].pc.SetChoosing? then 1 else 0
  }

  /** A slot about to be freed is one that has been claimed. */
  ghost predicate FreesClaimed(s: State) {
    forall p :: 0 <= p < |s.procs| ==> CanStep(s, p) && FreesOnlyClaimed(s, p)
  }

  predicate FreesOnlyClaimed(s: State, p: nat)
    requires CanStep(s, p)
  {
    s.procs[p].pc.ZeroNumber? || s.procs[p].pc.FreeSlot? ==> s.hashMap[s.procs[p].pc.j] >= 0
  }

  /** Written as the code stands, with a mark that is not negative, no slot ever becomes free again:
      each claim uses up one slot, so a lock with N slots is granted at most N times. */
  lemma {:induction false} SlotsRunOut(s: State, schedule: seq<nat>, freed: int)
    requires FreesClaimed(s) && freed >= 0
    ensures FreesClaimed(Steps(s, schedule, freed))
    ensures Claims(s, schedule, freed) + FreeSlots(Steps(s, schedule, freed).hashMap) == FreeSlots(s.hashMap)
    decreases |schedule|
  {
    if schedule == [] {
    } else {
      var m := |schedule| - 1;
      var u, p := Steps(s, schedule[..m], freed), schedule[m];
      SlotsRunOut(s, schedule[..m], freed);
      if CanStep(u, p) {
        FreesClaimedKept(u, p, freed);
        match u.procs[p].pc {
          case Idle =>
            var k := ClaimTarget(u.hashMap, p);
            if k < |u.hashMap| {
              FreeSlotsAfterWrite(u.hashMap, k, p);
            }
          case FreeSlot(j) =>
            FreeSlotsAfterWrite(u.hashMap, j, freed);
          case _ =>
        }
      }
    }
  }

  lemma FreesClaimedKept(s: State, p: nat, freed: int)
    requires FreesClaimed(s) && CanStep(s, p) && freed >= 0
    ensures FreesClaimed(Next(s, p, freed))
  {
    var t := Next(s, p, freed);
    ClaimedStays(s, p, freed);
    forall q | 0 <= q < |t.procs| ensures CanStep(t, q) && FreesOnlyClaimed(t, q) {
      assert CanStep(s, q) && FreesOnlyClaimed(s, q);
      if q == p {
        MoverFreesClaimed(s, p, freed);
      }
    }
  }

  /** A slot once claimed stays so. */
  lemma ClaimedStays(s: State, p: nat, freed: int)
    requires CanStep(s, p) && freed >= 0
    ensures var t := Next(s, p, freed);
      && Sized(t) && |t.hashMap| == |s.hashMap| && |t.procs| == |s.procs|
      && (forall j :: 0 <= j < |s.hashMap| && s.hashMap[j] >= 0 ==> t.hashMap[j] >= 0)
      && (forall q :: 0 <= q < |s.procs| && q != p ==> t.procs[q] == s.procs[q])
  {
  }

  lemma MoverFreesClaimed(s: State, p: nat, freed: int)
    requires CanStep(s, p) && FreesOnlyClaimed(s, p) && freed >= 0
    ensures var t := Next(s, p, freed); CanStep(t, p) && FreesOnlyClaimed(t, p)
  {
  }

  /** init_lock, with every slot free, is where that begins: N claims at most. */
  lemma GrantedAtMostNTimes(n: nat, clients: nat, schedule: seq<nat>, freed: int)
    requires n > 0 && freed >= 0
    ensures Claims(Init(n, clients), schedule, freed) <= n
  {
    var s := Init(n, clients);
    assert FreesClaimed(s);
    SlotsRunOut(s, schedule, freed);
    AllFree(s.hashMap);
  }

  lemma {:induction false} AllFree(hashMap: seq<int>)
    requires forall j :: 0 <= j < |hashMap| ==> hashMap[j] < 0
    ensures FreeSlots(hashMap) == |hashMap|
  {
    if hashMap == [] {
    } else {
      AllFree(hashMap[1..]);
    }
  }

  /** With a negative mark a claim fails only while every slot belongs to a process between do_lock and do_unlock. */
  lemma ClaimFailsOnlyWhenFull(s: State, p: nat, freed: int, j: nat)
    requires MayStep(s, p, freed) && freed < 0 && s.procs[p].pc.Idle? && j < |s.hashMap|
    requires Next(s, p, freed).procs[p].pc.Idle?
    ensures 0 <= s.hashMap[j] < |s.procs|
    ensures !s.procs[s.hashMap[j]].pc.Idle? && s.procs[s.hashMap[j]].slot == j
  {
    assert SlotOk(s, freed, j);
  }
}

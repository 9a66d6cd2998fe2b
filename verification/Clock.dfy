/** The clock replacement of kernel/fs/fscache/fscache.c, one model for the 4k and the 512-byte slots. */
module Clock {
  import opened Device

  /** What a slot's cur holds while the slot is empty. */
  const EMPTY: nat := 0xffff_ffff

  /** One cache slot; ref and dirty are bits 0 and 1 of state. */
  datatype Slot = Slot(buf: seq<byte>, cur: nat, ref: bool, dirty: bool)

  /** k places further round from h. */
  function Wrap(h: nat, k: nat, n: nat): (r: nat)
    requires h < n && k <= n
    ensures r < n
  {
    if h + k < n then h + k else h + k - n
  }

  /** How many places round from h slot i stands. */
  function Places(h: nat, i: nat, n: nat): (k: nat)
    requires h < n && i < n
    ensures k < n && Wrap(h, k, n) == i
  {
    if h <= i then i - h else i + n - h
  }

  /** Going round is counting modulo n. */
  lemma WrapIsRemainder(h: nat, k: nat, n: nat)
    requires h < n && k < n
    ensures Wrap(h, k, n) == (h + k) % n && Places(h, Wrap(h, k, n), n) == k
  {
  }

  /** The first place, counted from the head, of a slot neither referenced nor dirty; n if there is none. */
  function FirstIdle(s: seq<Slot>, head: nat, k: nat): (r: nat)
    requires head < |s| && k <= |s|
    ensures k <= r <= |s|
    ensures forall j :: k <= j < r ==> s[Wrap(head, j, |s|)].ref || s[Wrap(head, j, |s|)].dirty
    ensures r < |s| ==> !s[Wrap(head, r, |s|)].ref && !s[Wrap(head, r, |s|)].dirty
    decreases |s| - k
  {
    if k == |s| || (!s[Wrap(head, k, |s|)].ref && !s[Wrap(head, k, |s|)].dirty) then k else FirstIdle(s, head, k + 1)
  }

  /** The first place, counted from the head, of a slot that is not dirty; n if there is none. */
  function FirstClean(s: seq<Slot>, head: nat, k: nat): (r: nat)
    requires head < |s| && k <= |s|
    ensures k <= r <= |s|
    ensures forall j :: k <= j < r ==> s[Wrap(head, j, |s|)].dirty
    ensures r < |s| ==> !s[Wrap(head, r, |s|)].dirty
    decreases |s| - k
  {
    if k == |s| || !s[Wrap(head, k, |s|)].dirty then k else FirstClean(s, head, k + 1)
  }

  /** The slot to give up: the first idle one, else the first clean one, else the one under the hand. */
  ghost function Choice(s: seq<Slot>, head: nat): (r: nat)
    requires head < |s|
    ensures r < |s|
  {
    if FirstIdle(s, head, 0) < |s| then Wrap(head, FirstIdle(s, head, 0), |s|)
    else if FirstClean(s, head, 0) < |s| then Wrap(head, FirstClean(s, head, 0), |s|)
    else head
  }

  /** Slot j comes before slot i on the way round from the head. */
  predicate ComesBefore(head: nat, j: nat, i: nat, n: nat)
    requires head < n && i < n && j < n
  {
    Places(head, j, n) < Places(head, i, n)
  }

  /** Both bits of slot j are clear. */
  predicate IdleAt(s: seq<Slot>, j: nat)
    requires j < |s|
  {
    !s[j].ref && !s[j].dirty
  }

  predicate DirtyAt(s: seq<Slot>, j: nat)
    requires j < |s|
  {
    s[j].dirty
  }

  /** i is the slot that fs_victim has to give up: the first one, counted from the head, with both bits clear; if there
      is none, the first one that is not dirty; if all are dirty, the one under the head. */
  ghost predicate RightVictim(s: seq<Slot>, head: nat, i: nat)
    requires head < |s|
  {
    && i < |s|
    && ((exists j {:trigger IdleAt(s, j)} :: 0 <= j < |s| && IdleAt(s, j)) ==>
          IdleAt(s, i) && forall j {:trigger ComesBefore(head, j, i, |s|)} ::
            0 <= j < |s| && ComesBefore(head, j, i, |s|) ==> !IdleAt(s, j))
    && ((forall j {:trigger IdleAt(s, j)} :: 0 <= j < |s| ==> !IdleAt(s, j))
        && (exists j {:trigger DirtyAt(s, j)} :: 0 <= j < |s| && !DirtyAt(s, j)) ==>
          !DirtyAt(s, i) && forall j {:trigger ComesBefore(head, j, i, |s|)} ::
            0 <= j < |s| && ComesBefore(head, j, i, |s|) ==> DirtyAt(s, j))
    && ((forall j {:trigger DirtyAt(s, j)} :: 0 <= j < |s| ==> DirtyAt(s, j)) ==> i == head)
  }

  lemma ChoiceIsRight(s: seq<Slot>, head: nat)
    requires head < |s|
    ensures RightVictim(s, head, Choice(s, head))
  {
    var n, idle, clean := |s|, FirstIdle(s, head, 0), FirstClean(s, head, 0);
    forall j | 0 <= j < n
      ensures Places(head, j, n) < idle ==> !IdleAt(s, j)
      ensures Places(head, j, n) < clean ==> DirtyAt(s, j)
    {
      assert s[Wrap(head, Places(head, j, n), n)] == s[j];
    }
    if idle < n {
      WrapIsRemainder(head, idle, n);
      assert IdleAt(s, Choice(s, head));
    } else if clean < n {
      WrapIsRemainder(head, clean, n);
      assert !DirtyAt(s, Choice(s, head));
    }
  }

  /** Only one slot is the right one. */
  lemma OneRightVictim(s: seq<Slot>, head: nat, i: nat, j: nat)
    requires head < |s| && RightVictim(s, head, i) && RightVictim(s, head, j)
    ensures i == j
  {
    assert i != j ==> ComesBefore(head, i, j, |s|) || ComesBefore(head, j, i, |s|);
    assert IdleAt(s, i) || !IdleAt(s, i);
    assert DirtyAt(s, i) || !DirtyAt(s, i);
  }

  /** A dirty slot is given up only when all slots are dirty. */
  lemma DirtyOnlyWhenAllDirty(s: seq<Slot>, head: nat, i: nat)
    requires head < |s| && i < |s| && s[Choice(s, head)].dirty
    ensures s[i].dirty
  {
    var k := Places(head, i, |s|);
    assert FirstIdle(s, head, 0) == |s|;
    assert s[Wrap(head, k, |s|)].dirty;
  }

  /** What a sweep that has passed the first m places leaves: reference bits cleared there, nothing else. */
  ghost predicate Passed(s: seq<Slot>, t: seq<Slot>, head: nat, m: nat)
    requires head < |s|
  {
    && |t| == |s|
    && forall k :: 0 <= k < |s| ==>
         t[Wrap(head, k, |s|)] == if k < m then s[Wrap(head, k, |s|)].(ref := false) else s[Wrap(head, k, |s|)]
  }

  /** The second chance: when an idle slot has been found, exactly the slots before it have lost their reference bit;
      when there was none, all have. Nothing else has changed. */
  ghost predicate ChancesTaken(s: seq<Slot>, t: seq<Slot>, head: nat, i: nat)
    requires head < |s| && i < |s|
  {
    && |t| == |s|
    && forall j :: 0 <= j < |s| ==>
         t[j] == if IdleAt(s, i) && !ComesBefore(head, j, i, |s|) then s[j] else s[j].(ref := false)
  }

  lemma PassedIsChances(s: seq<Slot>, t: seq<Slot>, head: nat)
    requires head < |s| && Passed(s, t, head, FirstIdle(s, head, 0))
    ensures ChancesTaken(s, t, head, Choice(s, head))
  {
    var n, m, i := |s|, FirstIdle(s, head, 0), Choice(s, head);
    if m < n {
      WrapIsRemainder(head, m, n);
    } else {
      var k := Places(head, i, n);
      assert !IdleAt(s, i) by {
        assert s[Wrap(head, k, n)] == s[i];
      }
    }
    forall j | 0 <= j < n
      ensures t[j] == if IdleAt(s, i) && !ComesBefore(head, j, i, n) then s[j] else s[j].(ref := false)
    {
      var k := Places(head, j, n);
      assert t[Wrap(head, k, n)] == t[j] && s[Wrap(head, k, n)] == s[j];
    }
  }

  /** What fs_victim leaves of the slots when it has given up slot i, but for the dirty bit of that one. */
  ghost predicate SweptFor(s: seq<Slot>, t: seq<Slot>, head: nat, i: nat) {
    && |t| == |s| && head < |s| && RightVictim(s, head, i)
    && Passed(s, t[i := t[i].(dirty := s[i].dirty)], head, FirstIdle(s, head, 0))
  }

  lemma SweptAndWritten(s: seq<Slot>, s1: seq<Slot>, t: seq<Slot>, head: nat, i: nat)
    requires head < |s| && RightVictim(s, head, i) && Passed(s, s1, head, FirstIdle(s, head, 0))
    requires |t| == |s| && t == s1[i := s1[i].(dirty := t[i].dirty)]
    ensures SweptFor(s, t, head, i)
  {
    EachPlace(s, s1, head, FirstIdle(s, head, 0));
    assert t[i := t[i].(dirty := s[i].dirty)] == s1;
  }

  /** The first sweep of fs_victim. */
  method SweepReferences(slots: array<Slot>, head: nat) returns (found: bool, hand: nat)
    requires head < slots.Length
    modifies slots
    ensures Passed(old(slots[..]), slots[..], head, FirstIdle(old(slots[..]), head, 0))
    ensures found <==> FirstIdle(old(slots[..]), head, 0) < slots.Length
    ensures hand == Wrap(head, FirstIdle(old(slots[..]), head, 0), slots.Length)
  {
    var n := slots.Length;
    ghost var s := slots[..];
    hand := head;
    var i := 0;
    while i < n
      invariant 0 <= i <= n && hand == Wrap(head, i, n)
      invariant FirstIdle(s, head, i) == FirstIdle(s, head, 0)
      invariant Passed(s, slots[..], head, i)
    {
      assert slots[hand] == s[Wrap(head, i, n)];
      if !slots[hand].ref {
        if !slots[hand].dirty {
          return true, hand;
        }
      } else {
        slots[hand] := slots[hand].(ref := false);
      }
      hand := if hand + 1 < n then hand + 1 else 0;
      i := i + 1;
    }
    found := false;
  }

  /** The second sweep of fs_victim, which only looks. */
  method SweepDirty(slots: array<Slot>, head: nat) returns (hand: nat)
    requires head < slots.Length
    ensures hand == Wrap(head, FirstClean(slots[..], head, 0), slots.Length)
  {
    var n := slots.Length;
    hand := head;
    var i := 0;
    while i < n
      invariant 0 <= i <= n && hand == Wrap(head, i, n)
      invariant FirstClean(slots[..], head, i) == FirstClean(slots[..], head, 0)
    {
      if !slots[hand].dirty {
        return;
      }
      hand := if hand + 1 < n then hand + 1 else 0;
      i := i + 1;
    }
  }

  /** fs_victim: two sweeps round the clock. The places passed in the first sweep lose their reference bit;
      nothing else in a slot changes. */
  method Victim(slots: array<Slot>, head: nat) returns (index: nat, hand: nat)
    requires head < slots.Length
    modifies slots
    ensures index == Choice(old(slots[..]), head) && RightVictim(old(slots[..]), head, index)
    ensures ChancesTaken(old(slots[..]), slots[..], head, index)
    ensures hand == Wrap(index, 1, slots.Length)
    ensures Passed(old(slots[..]), slots[..], head, FirstIdle(old(slots[..]), head, 0))
    ensures forall i :: 0 <= i < slots.Length ==>
      slots[i] == old(slots[i]) || slots[i] == old(slots[i]).(ref := false)
  {
    ghost var s := slots[..];
    var found;
    found, index := SweepReferences(slots, head);
    EachPlace(s, slots[..], head, FirstIdle(s, head, 0));
    if !found {
      SameClean(s, slots[..], head, 0);
      index := SweepDirty(slots, index);
    }
    hand := if index + 1 < slots.Length then index + 1 else 0;
    ChoiceIsRight(s, head);
    PassedIsChances(s, slots[..], head);
  }

  lemma {:induction false} SameClean(s: seq<Slot>, t: seq<Slot>, head: nat, k: nat)
    requires |s| == |t| && head < |s| && k <= |s|
    requires forall i :: 0 <= i < |s| ==> t[i].dirty == s[i].dirty
    ensures FirstClean(t, head, k) == FirstClean(s, head, k)
    decreases |s| - k
  {
    if k == |s| || !s[Wrap(head, k, |s|)].dirty {
    } else {
      SameClean(s, t, head, k + 1);
    }
  }

  lemma EachPlace(s: seq<Slot>, t: seq<Slot>, head: nat, m: nat)
    requires head < |s| && Passed(s, t, head, m)
    ensures forall i :: 0 <= i < |s| ==> t[i] == s[i] || t[i] == s[i].(ref := false)
  {
    forall i | 0 <= i < |s| ensures t[i] == s[i] || t[i] == s[i].(ref := false) {
      var k := Places(head, i, |s|);
      assert t[Wrap(head, k, |s|)] == t[i];
    }
  }
}

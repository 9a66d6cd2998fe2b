/** The buddy allocator of kernel/mm/mybuddy.c.

    Frames are numbered relative to buddy.start_page. Page descriptors keep their flag and
    level in arrays, the free lists are rings of the list arena: ring k is freelist[k]. */
module Buddy {
  import opened Wrappers
  import opened Bits
  import opened Partition
  import List

  datatype Flag = Free | Slab | Alloced | Reserved

  /** The address of a frame, and the frame of an address. */
  lemma AddressOfFrame(pfn: nat)
    ensures Shr(Shl(pfn, 12), 12) == pfn
  {
    assert Size(12) == 4096;
    ShiftIsProduct(pfn, 12);
    ShiftIsDivision(Shl(pfn, 12), 12);
  }

  /** The descriptor of every block head but `held` tells the truth. Nothing is said of other frames. */
  ghost predicate Described(p: Cut, level: seq<int>, flag: seq<Flag>, held: nat) {
    && |p| == |level| == |flag|
    && (forall h :: 0 <= h < |p| && p[h].head == h && h != held ==>
          level[h] == p[h].order && (flag[h] == Free <==> p[h].free))
  }

  /** List k holds exactly the heads of the free blocks of order k. */
  ghost predicate Listed(p: Cut, rings: seq<seq<nat>>, nrFree: seq<int>) {
    && |rings| == |nrFree| == MAX_ORDER + 1
    && (forall k, h: nat :: 0 <= k <= MAX_ORDER ==> (h in rings[k] <==> Heads(p, h, k, true)))
    && (forall k :: 0 <= k <= MAX_ORDER ==> nrFree[k] == |rings[k]|)
  }

  /** The allocated blocks of p, block x apart, are those of q, block y apart. */
  ghost predicate SameAllocated(p: Cut, x: nat, q: Cut, y: nat) {
    forall h: nat, k: nat :: (Heads(p, h, k, false) && h != x) <==> (Heads(q, h, k, false) && h != y)
  }

  lemma InRing(rings: seq<seq<nat>>, entries: nat, k: nat, pos: nat, h: nat, q: nat)
    requires List.Separate(rings, entries) && k < |rings| && pos < |rings[k]| && q < |rings|
    ensures h in List.Cut(rings, k, pos)[q] <==> h in rings[q] && !(q == k && h == rings[k][pos])
  {
    var s, t := List.Cut(rings, k, pos)[k], rings[k];
    List.RingDistinct(rings, entries, k);
    assert forall i :: 0 <= i < |s| ==> s[i] == t[if i < pos then i else i + 1];
    if h in t && h != t[pos] {
      var i :| 0 <= i < |t| && t[i] == h;
      assert s[if i < pos then i else i - 1] == h;
    }
  }

  /** Taking a block off its list to make it the block in hand. */
  lemma Withdraw(p: Cut, level: seq<int>, flag: seq<Flag>, rings: seq<seq<nat>>, nrFree: seq<int>, entries: nat,
                 h: nat, k: nat, pos: nat)
    returns (q: Cut)
    requires Tiled(p) && NoFreeBuddies(p) && Described(p, level, flag, |p|) && Listed(p, rings, nrFree)
    requires List.Separate(rings, entries) && k <= MAX_ORDER && pos < |rings[k]| && rings[k][pos] == h
    ensures Heads(p, h, k, true)
    ensures |q| == |p|
      && Tiled(q) && NoFreeBuddies(q) && Described(q, level, flag, h)
      && Listed(q, List.Cut(rings, k, pos), nrFree[k := nrFree[k] - 1])
      && FreeFrames(q) == FreeFrames(p) - Run(h, k) && Heads(q, h, k, false)
      && SameAllocated(q, h, p, |p|)
  {
    assert h in rings[k];
    RecolourIsTiled(p, h, k, false);
    BlockOfHead(p, h, k);
    HeadsAfterRecolour(p, h, k, false);
    q := SetBlock(p, h, k, false);
    FewerFreeStayApart(p, q);
    forall j, g: nat | 0 <= j <= MAX_ORDER
      ensures g in List.Cut(rings, k, pos)[j] <==> Heads(q, g, j, true)
    {
      InRing(rings, entries, k, pos, g, j);
    }
  }

  /** One round of the coalescing loop: the pair is free and of the same order. */
  lemma Coalesce(p: Cut, level: seq<int>, flag: seq<Flag>, rings: seq<seq<nat>>, nrFree: seq<int>, entries: nat,
                 h: nat, k: nat, pos: nat)
    returns (q: Cut)
    requires Tiled(p) && NoFreeBuddies(p) && Described(p, level, flag, h) && Listed(p, rings, nrFree)
    requires Heads(p, h, k, false) && k < MAX_ORDER
    requires List.Separate(rings, entries) && pos < |rings[k]| && rings[k][pos] == Pair(h, k)
    ensures Heads(p, Pair(h, k), k, true) && Joined(h, k) < |p| == |q|
    ensures var a := Joined(h, k);
      && Tiled(q) && NoFreeBuddies(q) && Described(q, level[a := -1], flag, a)
      && Listed(q, List.Cut(rings, k, pos), nrFree[k := nrFree[k] - 1])
      && FreeFrames(q) + Run(a, k + 1) == FreeFrames(p) + Run(h, k) && Heads(q, a, k + 1, false)
      && SameAllocated(q, a, p, h)
  {
    var b, a := Pair(h, k), Joined(h, k);
    assert b in rings[k];
    q := SetBlock(p, a, k + 1, false);
    MergeIsTiled(p, h, k);
    assert Whole(p, p[h]);
    PairFacts(h, k);
    HeadsAfterMerge(p, h, b, k, a);
    FewerFreeStayApart(p, q);
    CoalescedFrames(p, h, k);
    CoalescedLists(p, rings, nrFree, entries, h, k, pos);
  }

  lemma CoalescedLists(p: Cut, rings: seq<seq<nat>>, nrFree: seq<int>, entries: nat, h: nat, k: nat, pos: nat)
    requires Tiled(p) && Listed(p, rings, nrFree) && k < MAX_ORDER
    requires Heads(p, h, k, false) && Heads(p, Pair(h, k), k, true)
    requires List.Separate(rings, entries) && pos < |rings[k]| && rings[k][pos] == Pair(h, k)
    ensures Listed(SetBlock(p, Joined(h, k), k + 1, false), List.Cut(rings, k, pos), nrFree[k := nrFree[k] - 1])
  {
    assert Whole(p, p[h]);
    PairFacts(h, k);
    HeadsAfterMerge(p, h, Pair(h, k), k, Joined(h, k));
    forall j, g: nat | 0 <= j <= MAX_ORDER
      ensures g in List.Cut(rings, k, pos)[j] <==> Heads(SetBlock(p, Joined(h, k), k + 1, false), g, j, true)
    {
      InRing(rings, entries, k, pos, g, j);
    }
  }

  lemma CoalescedFrames(p: Cut, h: nat, k: nat)
    requires Tiled(p) && Heads(p, h, k, false) && k < MAX_ORDER && Heads(p, Pair(h, k), k, true)
    ensures Joined(h, k) + Size(k + 1) <= |p|
    ensures FreeFrames(SetBlock(p, Joined(h, k), k + 1, false)) + Run(Joined(h, k), k + 1) == FreeFrames(p) + Run(h, k)
  {
    var b := Pair(h, k);
    MergeIsTiled(p, h, k);
    PairFacts(h, k);
    BlockOfHead(p, h, k);
    BlockOfHead(p, b, k);
    assert Run(Joined(h, k), k + 1) == Run(h, k) + Run(b, k);
    assert Run(b, k) <= FreeFrames(p);
  }

  /** The block in hand is put on the list of its order; its pair is not there. */
  lemma Release(p: Cut, level: seq<int>, flag: seq<Flag>, rings: seq<seq<nat>>, nrFree: seq<int>, h: nat, k: nat)
    returns (q: Cut)
    requires Tiled(p) && NoFreeBuddies(p) && Described(p, level, flag, h) && Listed(p, rings, nrFree)
    requires Heads(p, h, k, false) && k <= MAX_ORDER
    requires k < MAX_ORDER ==> !Heads(p, Pair(h, k), k, true)
    ensures |q| == |p|
      && Tiled(q) && NoFreeBuddies(q) && Described(q, level[h := k], flag[h := Free], |q|)
      && Listed(q, rings[k := [h] + rings[k]], nrFree[k := nrFree[k] + 1])
      && FreeFrames(q) == FreeFrames(p) + Run(h, k)
      && SameAllocated(q, |q|, p, h)
  {
    q := SetBlock(p, h, k, true);
    RecolourIsTiled(p, h, k, true);
    ReleaseKeepsApart(p, h, k);
    HeadsAfterRecolour(p, h, k, true);
    DescribedAfter(p, q, level, flag, h, level[h := k], flag[h := Free]);
  }

  /** Heads of q that are not touched were heads of p with the same order and freedom. */
  lemma DescribedAfter(p: Cut, q: Cut, level: seq<int>, flag: seq<Flag>, held: nat, level': seq<int>, flag': seq<Flag>)
    requires Described(p, level, flag, held) && |q| == |level'| == |flag'| == |p|
    requires held < |p| && level'[held] == q[held].order && (flag'[held] == Free <==> q[held].free)
    requires forall g :: 0 <= g < |p| && g != held && q[g].head == g ==>
      (level'[g] == q[g].order && (flag'[g] == Free <==> q[g].free)) ||
      (q[g] == p[g] && level'[g] == level[g] && flag'[g] == flag[g])
    ensures Described(q, level', flag', |q|)
  {
  }

  /** One round of the splitting loop: the upper half goes on the list below. */
  lemma Split(p: Cut, level: seq<int>, flag: seq<Flag>, rings: seq<seq<nat>>, nrFree: seq<int>, h: nat, k: nat)
    returns (q: Cut)
    requires Tiled(p) && NoFreeBuddies(p) && Described(p, level, flag, h) && Listed(p, rings, nrFree)
    requires Heads(p, h, k, false) && 0 < k <= MAX_ORDER
    ensures h + Size(k - 1) < |p| == |q| && p[h + Size(k - 1)] == p[h]
    ensures var m := h + Size(k - 1);
      && Tiled(q) && NoFreeBuddies(q) && Described(q, level[m := k - 1], flag[m := Free], h)
      && Listed(q, rings[k - 1 := [m] + rings[k - 1]], nrFree[k - 1 := nrFree[k - 1] + 1])
      && FreeFrames(q) + Run(h, k - 1) == FreeFrames(p) + Run(h, k)
      && Heads(q, h, k - 1, false) && Heads(q, m, k - 1, true)
      && SameAllocated(q, h, p, h)
  {
    q := Halved(p, h, k);
    BlockOfHead(p, h, k);
    HalvedIsTiled(p, h, k);
    HalvingKeepsApart(p, h, k);
    SplitFrames(p, h, k);
    SplitLists(p, rings, nrFree, h, k);
    SplitDescribed(p, level, flag, h, k);
    HeadsAfterHalving(p, h, k);
  }

  lemma SplitDescribed(p: Cut, level: seq<int>, flag: seq<Flag>, h: nat, k: nat)
    requires Tiled(p) && Described(p, level, flag, h) && Heads(p, h, k, false) && 0 < k <= MAX_ORDER
    requires h + Size(k - 1) < |p|
    ensures Described(Halved(p, h, k), level[h + Size(k - 1) := k - 1], flag[h + Size(k - 1) := Free], h)
  {
    var q, m := Halved(p, h, k), h + Size(k - 1);
    assert forall f :: 0 <= f < |p| && f != h && f != m && q[f].head == f ==> q[f] == p[f];
    assert q[m] == Block(m, k - 1, true);
  }

  lemma SplitFrames(p: Cut, h: nat, k: nat)
    requires Tiled(p) && 0 < k <= MAX_ORDER && Heads(p, h, k, false)
    ensures FreeFrames(Halved(p, h, k)) + Run(h, k - 1) == FreeFrames(p) + Run(h, k)
  {
    HalvedIsTiled(p, h, k);
    assert Run(h, k) == Run(h, k - 1) + Run(h + Size(k - 1), k - 1);
  }

  lemma SplitLists(p: Cut, rings: seq<seq<nat>>, nrFree: seq<int>, h: nat, k: nat)
    requires Tiled(p) && 0 < k <= MAX_ORDER && Heads(p, h, k, false) && Listed(p, rings, nrFree)
    ensures Listed(Halved(p, h, k), rings[k - 1 := [h + Size(k - 1)] + rings[k - 1]],
                   nrFree[k - 1 := nrFree[k - 1] + 1])
  {
    HeadsAfterHalving(p, h, k);
    BlockOfHead(p, h, k);
    assert !Heads(p, h + Size(k - 1), k - 1, true);
  }

  /** Free lists as sets: whatever the order of the entries, these blocks and no others. */
  ghost predicate SameFreeBlocks(r: seq<seq<nat>>, s: seq<seq<nat>>) {
    |r| == |s| && forall k, h: nat :: 0 <= k < |r| ==> (h in r[k] <==> h in s[k])
  }

  /** Some aligned run of 2^order frames is wholly free. */
  ghost predicate Room(p: Cut, order: nat) {
    exists h: nat :: Aligned(h, order, |p|) && Run(h, order) <= FreeFrames(p)
  }

  lemma RoomIffListed(p: Cut, rings: seq<seq<nat>>, nrFree: seq<int>, order: nat)
    requires Tiled(p) && NoFreeBuddies(p) && Listed(p, rings, nrFree)
    ensures Room(p, order) <==> exists j :: order <= j <= MAX_ORDER && rings[j] != []
  {
    if order <= MAX_ORDER {
      RoomIffFreeBlock(p, order);
      if j :| order <= j <= MAX_ORDER && rings[j] != [] {
        assert Heads(p, rings[j][0], j, true);
      }
      if h: nat, j: nat :| order <= j <= MAX_ORDER && Heads(p, h, j, true) {
        assert h in rings[j];
      }
    }
  }

  lemma {:induction false} SameMembersSameLength(s: seq<nat>, t: seq<nat>)
    requires forall i, j :: 0 <= i < j < |s| ==> s[i] != s[j]
    requires forall i, j :: 0 <= i < j < |t| ==> t[i] != t[j]
    requires forall h :: h in s <==> h in t
    ensures |s| == |t|
  {
    assert t != [] ==> t[0] in t;
    if s == [] {
    } else {
      assert s[0] in t;
      var i :| 0 <= i < |t| && t[i] == s[0];
      var t' := t[..i] + t[i + 1..];
      assert forall j :: 0 <= j < |t'| ==> t'[j] == t[if j < i then j else j + 1];
      forall h ensures h in s[1..] <==> h in t' {
        if h in t' {
          assert h in t && h != s[0];
          var j :| 0 <= j < |s| && s[j] == h;
          assert s[1..][j - 1] == h;
        }
        if h in s[1..] {
          assert h in s && h != s[0];
          var j :| 0 <= j < |t| && t[j] == h;
          assert t'[if j < i then j else j - 1] == h;
        }
      }
      SameMembersSameLength(s[1..], t');
    }
  }

  /** The frames the lists from order k up account for, by their counters. */
  ghost function Counted(nrFree: seq<int>, k: nat): int
    requires |nrFree| == MAX_ORDER + 1
    decreases MAX_ORDER + 1 - k
  {
    if k > MAX_ORDER then 0 else Size(k) * nrFree[k] + Counted(nrFree, k + 1)
  }

  ghost function FreeFrom(p: Cut, k: nat): set<nat> {
    set f: nat | f < |p| && p[f].free && p[f].order >= k
  }

  lemma {:induction false} CountersFrom(p: Cut, rings: seq<seq<nat>>, nrFree: seq<int>, entries: nat, k: nat)
    requires Tiled(p) && Listed(p, rings, nrFree) && List.Separate(rings, entries) && k <= MAX_ORDER + 1
    ensures |FreeFrom(p, k)| == Counted(nrFree, k)
    decreases MAX_ORDER + 1 - k
  {
    if k > MAX_ORDER {
      assert forall f: nat :: f < |p| ==> Whole(p, p[f]);
      assert FreeFrom(p, k) == {};
    } else {
      CountersFrom(p, rings, nrFree, entries, k + 1);
      CountersOf(p, rings, nrFree, entries, k);
    }
  }

  lemma CountersOf(p: Cut, rings: seq<seq<nat>>, nrFree: seq<int>, entries: nat, k: nat)
    requires Tiled(p) && Listed(p, rings, nrFree) && List.Separate(rings, entries) && k <= MAX_ORDER
    ensures |FreeFrom(p, k)| == Size(k) * nrFree[k] + |FreeFrom(p, k + 1)|
  {
    var s := rings[k];
    assert forall i :: 0 <= i < |s| ==> s[i] in rings[k];
    List.RingDistinct(rings, entries, k);
    FramesOfSize(p, s, k);
    forall f: nat ensures f in FramesOf(s, k) <==> f < |p| && p[f].free && p[f].order == k {
      FramesOfRing(p, rings, nrFree, k, f);
    }
    assert FreeFrom(p, k) == FramesOf(s, k) + FreeFrom(p, k + 1);
    assert FramesOf(s, k) !! FreeFrom(p, k + 1);
  }

  lemma FramesOfRing(p: Cut, rings: seq<seq<nat>>, nrFree: seq<int>, k: nat, f: nat)
    requires Tiled(p) && Listed(p, rings, nrFree) && k <= MAX_ORDER
    ensures f in FramesOf(rings[k], k) <==> f < |p| && p[f].free && p[f].order == k
  {
    var s := rings[k];
    FramesOfMember(s, k, f);
    if f < |p| && p[f].free && p[f].order == k {
      assert Covers(p[f], f) && Whole(p, p[f]) && Heads(p, p[f].head, k, true);
      assert p[f].head in s;
      var i :| 0 <= i < |s| && s[i] == p[f].head;
      assert f in Run(s[i], k);
    } else if f in FramesOf(s, k) {
      var i :| 0 <= i < |s| && f in Run(s[i], k);
      assert s[i] in s;
      BlockOfHead(p, s[i], k);
    }
  }

  /** Descriptors of frames that are not strictly between these two are as before. */
  ghost predicate Untouched(low: nat, high: nat, level0: seq<int>, flag0: seq<Flag>, level: seq<int>, flag: seq<Flag>) {
    && |level| == |flag| == |level0| == |flag0|
    && forall h :: 0 <= h < |level0| && !(low < h < high) ==> level[h] == level0[h] && flag[h] == flag0[h]
  }

  lemma StillUntouched(low: nat, high: nat, level0: seq<int>, flag0: seq<Flag>, level: seq<int>, flag: seq<Flag>,
                       h: nat, k: nat)
    requires Untouched(low, high, level0, flag0, level, flag) && low < h < high && h < |level|
    ensures Untouched(low, high, level0, flag0, level[h := k], flag[h := Free])
  {
  }

  /** One block fewer on the list. */
  ghost predicate OneLess(q: seq<nat>, q': seq<nat>) {
    exists pos :: 0 <= pos < |q| && q' == q[..pos] + q[pos + 1..]
  }

  /** Lists from `order` to below bp have lost one block each; the others are as they were. */
  ghost predicate Thinned(before: seq<seq<nat>>, after: seq<seq<nat>>, order: nat, bp: nat) {
    && |before| == |after| == 5
    && (forall j :: order <= j < bp && j < 5 ==> OneLess(before[j], after[j]))
    && (forall j :: 0 <= j < 5 && !(order <= j < bp) ==> after[j] == before[j])
  }

  /** The block at h of order k, which i is part of, has been put at the head of its list; every list from `order` up to
      there has lost one block, and the others are as they were. */
  ghost predicate PutBack(before: seq<seq<nat>>, after: seq<seq<nat>>, i: nat, order: nat, h: nat, k: nat) {
    && |before| == |after| && order <= k < |after| && h <= i < h + Size(k)
    && after[k] == [h] + before[k]
    && (forall j :: order <= j < k ==> OneLess(before[j], after[j]))
    && (forall j :: 0 <= j < |after| && (j < order || j > k) ==> after[j] == before[j])
  }

  /** The block at page is the first of list k, the lowest from `order` up that is not empty; what it has been cut down
      by is on the lists between. */
  ghost predicate TakenFrom(before: seq<seq<nat>>, after: seq<seq<nat>>, page: nat, order: nat, k: nat) {
    && |before| == |after| && order <= k < |after| && before[k] != [] && page == before[k][0]
    && (forall j :: order <= j < k ==> before[j] == [] && after[j] == [page + Size(j)])
    && (forall j :: 0 <= j < |after| && !(order <= j < k) ==> after[j] == if j == k then before[j][1..] else before[j])
  }

  /** The halves of a block of order `top` down to order k are at the heads of their lists. */
  ghost predicate HalvesListed(before: seq<seq<nat>>, after: seq<seq<nat>>, page: nat, top: nat, k: nat) {
    && |before| == |after|
    && forall j :: 0 <= j < |after| ==> after[j] == if k <= j < top then [page + Size(j)] + before[j] else before[j]
  }

  lemma HalvesFurther(before: seq<seq<nat>>, rings: seq<seq<nat>>, after: seq<seq<nat>>, page: nat, top: nat, k: nat)
    requires HalvesListed(before, rings, page, top, k + 1) && k < top && k < |rings|
    requires after == rings[k := [page + Size(k)] + rings[k]]
    ensures HalvesListed(before, after, page, top, k)
  {
  }

  lemma TakenAndHalved(before: seq<seq<nat>>, after: seq<seq<nat>>, page: nat, order: nat, k: nat)
    requires order <= k < |before| && before[k] != [] && page == before[k][0]
    requires forall j :: order <= j < k ==> before[j] == []
    requires HalvesListed(before[k := before[k][1..]], after, page, k, order)
    ensures TakenFrom(before, after, page, order, k)
  {
  }

  class BuddySystem {
    const n: nat               // frames managed: buddy_end_pfn - buddy_start_pfn
    const startPfn: nat
    const flag: array<Flag>
    const level: array<int>
    const nrFree: array<int>
    const lists: List.ListArena
    ghost var cut: Cut

    ghost predicate Shape()
      reads this, flag, level, nrFree, lists, lists.prev, lists.next
    {
      && lists.Valid() && lists.entries == n && |lists.rings| == MAX_ORDER + 1
      && flag.Length == level.Length == n == |cut| && nrFree.Length == MAX_ORDER + 1
      && level != nrFree && level != lists.prev && level != lists.next && nrFree != lists.prev && nrFree != lists.next
      && Tiled(cut) && NoFreeBuddies(cut)
      && Listed(cut, lists.rings, nrFree[..])
    }

    ghost predicate Valid()
      reads this, flag, level, nrFree, lists, lists.prev, lists.next
    {
      Shape() && Described(cut, level[..], flag[..], n)
    }

    /** list_head of freelist[k] */
    function Head(k: nat): nat { n + k }

    /** The block in hand, and how far the whole state agrees with it. */
    ghost predicate Holding(page: nat, order: nat)
      reads this, flag, level, nrFree, lists, lists.prev, lists.next
    {
      Shape() && Described(cut, level[..], flag[..], page) && order <= MAX_ORDER && Heads(cut, page, order, false)
    }

    /** list_del_init of a block's node, and --nr_free. */
    method Unlist(h: nat, k: nat, ghost pos: nat)
      requires lists.Valid() && lists.entries == n && |lists.rings| == nrFree.Length == MAX_ORDER + 1
      requires k <= MAX_ORDER && pos < |lists.rings[k]| && lists.rings[k][pos] == h
      requires nrFree != lists.prev && nrFree != lists.next
      modifies nrFree, lists`rings, lists.prev, lists.next
      ensures lists.Valid() && lists.rings == List.Cut(old(lists.rings), k, pos)
      ensures nrFree[..] == old(nrFree[..])[k := old(nrFree[k]) - 1]
    {
      lists.DelInit(h, k, pos);
      nrFree[k] := nrFree[k] - 1;
    }

    /** list_add of a block's node, and ++nr_free. */
    method Enlist(h: nat, k: nat)
      requires lists.Valid() && lists.entries == n && |lists.rings| == nrFree.Length == MAX_ORDER + 1
      requires k <= MAX_ORDER && h < n && List.Loose(lists.rings, h)
      requires nrFree != lists.prev && nrFree != lists.next
      modifies nrFree, lists`rings, lists.prev, lists.next
      ensures lists.Valid() && lists.rings == old(lists.rings)[k := [h] + old(lists.rings[k])]
      ensures nrFree[..] == old(nrFree[..])[k := old(nrFree[k]) + 1]
    {
      lists.Add(h, Head(k));
      nrFree[k] := nrFree[k] + 1;
    }

    /** set_bplevel and set_flag(BUDDY_FREE). */
    method Mark(h: nat, k: nat)
      requires h < level.Length == flag.Length
      modifies level, flag
      ensures level[..] == old(level[..])[h := k] && flag[..] == old(flag[..])[h := Free]
    {
      level[h] := k;
      flag[h] := Free;
    }

    /** The two tests of __free_pages's loop, on a descriptor that might have been stale. */
    method PairIsFree(page: nat, bp: nat) returns (yes: bool)
      requires Holding(page, bp) && bp < MAX_ORDER
      ensures yes <==> Heads(cut, Pair(page, bp), bp, true)
    {
      var pair := Pair(page, bp);
      PairIsHead(cut, page, bp);
      assert Whole(cut, cut[page]);
      PairFacts(page, bp);
      yes := level[pair] == bp && flag[pair] == Free;
    }

    /** The body of __free_pages's loop, once the pair has passed both tests. */
    method Combine(page: nat, bp: nat) returns (joined: nat)
      requires Holding(page, bp) && bp < MAX_ORDER && Heads(cut, Pair(page, bp), bp, true)
      modifies this`cut, level, nrFree, lists`rings, lists.prev, lists.next
      ensures Holding(joined, bp + 1)
      ensures FreeFrames(cut) + Run(joined, bp + 1) == old(FreeFrames(cut)) + Run(page, bp)
      ensures SameAllocated(cut, joined, old(cut), page)
      ensures joined <= page && page + Size(bp) <= joined + Size(bp + 1)
      ensures |lists.rings| == 5 && OneLess(old(lists.rings[bp]), lists.rings[bp])
      ensures lists.rings == old(lists.rings)[bp := lists.rings[bp]]
    {
      var pair := Pair(page, bp);
      assert pair in lists.rings[bp];
      ghost var pos :| 0 <= pos < |lists.rings[bp]| && lists.rings[bp][pos] == pair;
      ghost var next := Coalesce(cut, level[..], flag[..], lists.rings, nrFree[..], n, page, bp, pos);
      ghost var level0 := level[..];
      Unlist(pair, bp, pos);
      joined := Joined(page, bp);
      PairFacts(page, bp) by { assert Whole(cut, cut[page]); }
      if joined == pair {
        level[pair] := -1;
      } else {
        level[page] := -1;
      }
      assert level[..] == level0[joined := -1];
      cut := next;
    }

    /** The end of __free_pages: level, flag and list of the combined block. */
    method PutOnList(page: nat, bp: nat)
      requires Holding(page, bp)
      requires bp < MAX_ORDER ==> !Heads(cut, Pair(page, bp), bp, true)
      modifies this`cut, flag, level, nrFree, lists`rings, lists.prev, lists.next
      ensures Valid()
      ensures FreeFrames(cut) == old(FreeFrames(cut)) + Run(page, bp)
      ensures SameAllocated(cut, n, old(cut), page)
      ensures flag[..] == old(flag[..])[page := Free]
      ensures Heads(cut, page, bp, true) && |lists.rings| == 5
      ensures lists.rings == old(lists.rings)[bp := [page] + old(lists.rings[bp])]
    {
      ghost var next := Release(cut, level[..], flag[..], lists.rings, nrFree[..], page, bp);
      assert List.Loose(lists.rings, page);
      Mark(page, bp);
      Enlist(page, bp);
      cut := next;
    }

    /** __free_pages's loop: combine with the pair for as long as it is free and of the same order. */
    method CombineAll(i: nat, order: nat) returns (page: nat, bp: nat)
      requires Holding(i, order)
      modifies this`cut, level, nrFree, lists`rings, lists.prev, lists.next
      ensures Holding(page, bp) && (bp < MAX_ORDER ==> !Heads(cut, Pair(page, bp), bp, true))
      ensures FreeFrames(cut) + Run(page, bp) == old(FreeFrames(cut)) + Run(i, order)
      ensures SameAllocated(cut, page, old(cut), i)
      ensures page <= i < page + Size(bp) && order <= bp && Thinned(old(lists.rings), lists.rings, order, bp)
    {
      page, bp := i, order;
      while bp < MAX_ORDER
        invariant Holding(page, bp)
        invariant FreeFrames(cut) + Run(page, bp) == old(FreeFrames(cut)) + Run(i, order)
        invariant SameAllocated(cut, page, old(cut), i)
        invariant page <= i < page + Size(bp) && order <= bp && Thinned(old(lists.rings), lists.rings, order, bp)
      {
        var combinable := PairIsFree(page, bp);
        if !combinable {
          return;
        }
        page := Combine(page, bp);
        bp := bp + 1;
      }
    }

    /** __free_pages */
    method FreePages(i: nat, order: nat)
      requires Valid() && Heads(cut, i, order, false)
      modifies this`cut, flag, level, nrFree, lists`rings, lists.prev, lists.next
      ensures Valid()
      ensures FreeFrames(cut) == old(FreeFrames(cut)) + Run(i, order)
      ensures SameAllocated(cut, n, old(cut), i)
      ensures forall h: nat, k: nat :: Heads(cut, h, k, false) ==> flag[h] == old(flag[h])
      ensures exists h: nat, k: nat :: Heads(cut, h, k, true) && PutBack(old(lists.rings), lists.rings, i, order, h, k)
    {
      assert Whole(cut, cut[i]);
      var page, bp := CombineAll(i, order);
      PutOnList(page, bp);
      assert Heads(cut, page, bp, true) && PutBack(old(lists.rings), lists.rings, i, order, page, bp);
    }

    /** The first ring from order up that holds a block, as the search loop of __alloc_pages finds it. */
    method FindOrder(order: nat) returns (current: nat)
      requires Valid()
      ensures order <= current
      ensures current <= MAX_ORDER ==> lists.rings[current] != []
      ensures forall j :: order <= j < current && j <= MAX_ORDER ==> lists.rings[j] == []
    {
      current := order;
      while current <= MAX_ORDER
        invariant order <= current
        invariant forall j :: order <= j < current && j <= MAX_ORDER ==> lists.rings[j] == []
      {
        var empty := lists.IsEmpty(Head(current));
        if !empty {
          break;
        }
        current := current + 1;
      }
    }

    /** The first block of list `current` leaves the list, marked as a block of order `order`. */
    method Take(current: nat, order: nat) returns (page: nat)
      requires Valid() && order <= current <= MAX_ORDER && lists.rings[current] != []
      modifies this`cut, flag, level, nrFree, lists`rings, lists.prev, lists.next
      ensures Holding(page, current) && level[page] == order && flag[page] == Alloced
      ensures old(Heads(cut, page, current, true))
      ensures FreeFrames(cut) == old(FreeFrames(cut)) - Run(page, current)
      ensures SameAllocated(cut, page, old(cut), n)
      ensures forall h :: 0 <= h < n && h != page ==> flag[h] == old(flag[h])
      ensures page == old(lists.rings[current][0])
      ensures lists.rings == old(lists.rings)[current := old(lists.rings[current])[1..]]
    {
      page := lists.First(Head(current));
      ghost var next := Withdraw(cut, level[..], flag[..], lists.rings, nrFree[..], n, page, current, 0);
      ghost var level0, flag0 := level[..], flag[..];
      Unlist(page, current, 0);
      assert old(lists.rings[current])[..0] + old(lists.rings[current])[1..] == old(lists.rings[current])[1..];
      level[page] := order;
      flag[page] := Alloced;
      assert level[..] == level0[page := order];
      assert flag[..] == flag0[page := Alloced];
      cut := next;
    }

    /** The body of __alloc_pages's splitting loop, with current_order already lowered: the upper
        half becomes a free block. */
    method SplitOff(page: nat, buddy: nat, current: nat)
      requires Holding(page, current + 1) && buddy == page + Size(current)
      modifies this`cut, flag, level, nrFree, lists`rings, lists.prev, lists.next
      ensures Holding(page, current) && buddy < n
      ensures FreeFrames(cut) + Run(page, current) == old(FreeFrames(cut)) + Run(page, current + 1)
      ensures SameAllocated(cut, page, old(cut), page)
      ensures level[..] == old(level[..])[buddy := current] && flag[..] == old(flag[..])[buddy := Free]
      ensures |lists.rings| == 5 && lists.rings == old(lists.rings)[current := [buddy] + old(lists.rings[current])]
    {
      ghost var next := Split(cut, level[..], flag[..], lists.rings, nrFree[..], page, current + 1);
      ghost var level0, flag0 := level[..], flag[..];
      assert List.Loose(lists.rings, buddy);
      Enlist(buddy, current);
      Mark(buddy, current);
      assert level[..] == level0[buddy := current] && flag[..] == flag0[buddy := Free];
      cut := next;
    }

    /** __alloc_pages: it fails exactly when no aligned run of 2^order frames is wholly free. */
    method AllocBlock(order: nat) returns (r: Option<nat>)
      requires Valid()
      modifies this`cut, flag, level, nrFree, lists`rings, lists.prev, lists.next
      ensures Valid()
      ensures r.Some? <==> Room(old(cut), order)
      ensures r.None? ==> cut == old(cut) && lists.rings == old(lists.rings)
      ensures r.Some? ==> Granted(old(cut), r.value, order, old(flag[..]))
      ensures r.Some? ==> exists k: nat :: TakenFrom(old(lists.rings), lists.rings, r.value, order, k)
    {
      RoomIffListed(cut, lists.rings, nrFree[..], order);
      var current := FindOrder(order);
      if current > MAX_ORDER {
        return None;
      }
      var page := AllocFrom(current, order);
      r := Some(page);
    }

    /** The rest of __alloc_pages, once a list that is not empty has been found. */
    method AllocFrom(current: nat, order: nat) returns (page: nat)
      requires Valid() && order <= current <= MAX_ORDER && lists.rings[current] != []
      requires forall j :: order <= j < current ==> lists.rings[j] == []
      modifies this`cut, flag, level, nrFree, lists`rings, lists.prev, lists.next
      ensures Valid() && Granted(old(cut), page, order, old(flag[..]))
      ensures TakenFrom(old(lists.rings), lists.rings, page, order, current)
    {
      page := Take(current, order);
      BlockOfHead(old(cut), page, current);
      SplitDown(page, current, order);
      TakenAndHalved(old(lists.rings), lists.rings, page, order, current);
    }

    /** What an allocation hands out, and what it leaves alone. */
    ghost predicate Granted(before: Cut, page: nat, order: nat, flags: seq<Flag>)
      reads this, flag
    {
      && |before| == n == |cut| == flag.Length == |flags|
      && Heads(cut, page, order, false) && flag[page] == Alloced
      && Run(page, order) <= FreeFrames(before)
      && FreeFrames(cut) == FreeFrames(before) - Run(page, order)
      && SameAllocated(cut, page, before, n)
      && forall h: nat, k: nat :: Heads(cut, h, k, false) && h != page ==> flag[h] == flags[h]
    }

    /** __alloc_pages's splitting loop. */
    method SplitDown(page: nat, top: nat, order: nat)
      requires Holding(page, top) && order <= top && level[page] == order && flag[page] == Alloced
      modifies this`cut, flag, level, nrFree, lists`rings, lists.prev, lists.next
      ensures Valid() && Heads(cut, page, order, false) && flag[page] == Alloced
      ensures FreeFrames(cut) + Run(page, order) == old(FreeFrames(cut)) + Run(page, top)
      ensures FreeFrames(cut) !! Run(page, order)
      ensures SameAllocated(cut, page, old(cut), page)
      ensures forall h :: 0 <= h < n && !(page <= h < page + Size(top)) ==> flag[h] == old(flag[h])
      ensures HalvesListed(old(lists.rings), lists.rings, page, top, order)
    {
      SplitTo(page, top, order);
      assert Whole(cut, cut[page]);
    }

    /** The loop itself; the descriptors of other frames than the upper halves stay. */
    method SplitTo(page: nat, top: nat, order: nat)
      requires Holding(page, top) && order <= top
      modifies this`cut, flag, level, nrFree, lists`rings, lists.prev, lists.next
      ensures SplitSince(old(cut), old(level[..]), old(flag[..]), page, top, order)
      ensures HalvesListed(old(lists.rings), lists.rings, page, top, order)
    {
      var current := top;
      while current > order
        invariant order <= current <= top
        invariant SplitSince(old(cut), old(level[..]), old(flag[..]), page, top, current)
        invariant HalvesListed(old(lists.rings), lists.rings, page, top, current)
      {
        current := current - 1;
        ghost var rings := lists.rings;
        SplitAgain(old(cut), old(level[..]), old(flag[..]), page, top, current);
        HalvesFurther(old(lists.rings), rings, lists.rings, page, top, current);
      }
    }

    /** The block at page is down to this order, and what was split off it is free. */
    ghost predicate SplitSince(cut0: Cut, level0: seq<int>, flag0: seq<Flag>, page: nat, top: nat, current: nat)
      reads this, flag, level, nrFree, lists, lists.prev, lists.next
    {
      && Holding(page, current) && Size(current) <= Size(top)
      && FreeFrames(cut) + Run(page, current) == FreeFrames(cut0) + Run(page, top)
      && SameAllocated(cut, page, cut0, page)
      && Untouched(page, page + Size(top), level0, flag0, level[..], flag[..])
    }

    /** The body of the loop, seen from where it began. */
    method SplitAgain(ghost cut0: Cut, ghost level0: seq<int>, ghost flag0: seq<Flag>, page: nat, ghost top: nat,
                      current: nat)
      requires SplitSince(cut0, level0, flag0, page, top, current + 1)
      modifies this`cut, flag, level, nrFree, lists`rings, lists.prev, lists.next
      ensures SplitSince(cut0, level0, flag0, page, top, current) && |lists.rings| == 5 && current < 5
      ensures lists.rings == old(lists.rings)[current := [page + Size(current)] + old(lists.rings[current])]
    {
      ghost var level1, flag1 := level[..], flag[..];
      SplitOff(page, page + Size(current), current);
      StillUntouched(page, page + Size(top), level0, flag0, level1, flag1, page + Size(current), current);
    }

    /** alloc_pages: a block of the least order that holds nrPage frames, by its physical address. */
    method AllocPages(nrPage: nat) returns (r: Option<nat>, ghost order: nat)
      requires Valid()
      modifies this`cut, flag, level, nrFree, lists`rings, lists.prev, lists.next
      ensures Valid()
      ensures r.Some? <==> nrPage > 0 && Room(old(cut), order)
      ensures r.None? ==> cut == old(cut) && lists.rings == old(lists.rings)
      ensures nrPage > 0 ==> nrPage <= Size(order) && (order == 0 || Size(order - 1) < nrPage)
      ensures r.Some? ==> Shr(r.value, 12) >= startPfn && r.value == Shl(Shr(r.value, 12), 12)
      ensures r.Some? ==> Granted(old(cut), Shr(r.value, 12) - startPfn, order, old(flag[..]))
    {
      order := 0;
      if nrPage == 0 {
        return None, 0;
      }
      var bplevel := LeastOrder(nrPage);
      order := bplevel;
      var page := AllocBlock(bplevel);
      match page
      case None => r := None;
      case Some(h) =>
        AddressOfFrame(startPfn + h);
        r := Some(Shl(startPfn + h, 12));
    }

    /** The loop of alloc_pages: the least order whose blocks hold nrPage frames. */
    method LeastOrder(nrPage: nat) returns (order: nat)
      requires nrPage > 0
      ensures nrPage <= Size(order) && (order == 0 || Size(order - 1) < nrPage)
    {
      order := 0;
      while Size(order) < nrPage
        invariant order == 0 || Size(order - 1) < nrPage
        decreases nrPage - Size(order)
      {
        order := order + 1;
      }
    }

    /** free_pages */
    method FreeAddress(addr: nat, order: nat)
      requires Valid() && Shr(addr, 12) >= startPfn && Heads(cut, Shr(addr, 12) - startPfn, order, false)
      modifies this`cut, flag, level, nrFree, lists`rings, lists.prev, lists.next
      ensures Valid()
      ensures FreeFrames(cut) == old(FreeFrames(cut)) + Run(Shr(addr, 12) - startPfn, order)
      ensures SameAllocated(cut, n, old(cut), Shr(addr, 12) - startPfn)
      ensures forall h: nat, k: nat :: Heads(cut, h, k, false) ==> flag[h] == old(flag[h])
    {
      FreePages(Shr(addr, 12) - startPfn, order);
    }

    /** init_buddy's release loop ends with blocks of the largest order only. */
    constructor Init(startPfn: nat, endPfn: nat)
      requires startPfn <= endPfn && Multiple(endPfn - startPfn, MAX_ORDER)
      ensures Valid() && n == endPfn - startPfn && this.startPfn == startPfn
      ensures fresh(flag) && fresh(level) && fresh(nrFree) && fresh(lists) && fresh(lists.prev) && fresh(lists.next)
      ensures forall f: nat :: f in FreeFrames(cut) <==> f < n
      ensures forall k :: 0 <= k < MAX_ORDER ==> lists.rings[k] == []
      ensures |lists.rings| == 5 && forall h: nat :: h in lists.rings[4] <==> h < n && Multiple(h, 4)
    {
      n := endPfn - startPfn;
      this.startPfn := startPfn;
      flag := new Flag[endPfn - startPfn](_ => Reserved);
      level := new int[endPfn - startPfn](_ => 0);
      nrFree := new int[MAX_ORDER + 1](_ => 0);
      lists := new List.ListArena(endPfn - startPfn, MAX_ORDER + 1);
      cut := seq(endPfn - startPfn, f requires 0 <= f => Block(f, 0, false));
      new;
      ReleaseAll();
      OnlyLargest();
    }

    lemma OnlyLargest()
      requires Valid() && forall f :: 0 <= f < n ==> cut[f].free
      ensures forall k :: 0 <= k < MAX_ORDER ==> lists.rings[k] == []
      ensures forall h: nat :: h in lists.rings[MAX_ORDER] <==> h < n && Multiple(h, MAX_ORDER)
    {
      forall h: nat ensures h in lists.rings[MAX_ORDER] <==> h < n && Multiple(h, MAX_ORDER) {
        AllFreeMeansAllLargest(cut, h, MAX_ORDER);
      }
      forall k | 0 <= k < MAX_ORDER ensures lists.rings[k] == [] {
        if lists.rings[k] != [] {
          var h: nat := lists.rings[k][0];
          assert h in lists.rings[k] && Heads(cut, h, k, true);
          AllFreeMeansAllLargest(cut, h, k);
        }
      }
    }

    method ReleaseAll()
      requires Valid() && forall f :: 0 <= f < n ==> cut[f] == Block(f, 0, false)
      modifies this`cut, flag, level, nrFree, lists`rings, lists.prev, lists.next
      ensures Valid() && forall f :: 0 <= f < n ==> cut[f].free
    {
      for i := 0 to n
        invariant Valid()
        invariant forall f: nat :: i <= f < n ==> Heads(cut, f, 0, false)
        invariant forall f: nat :: f in FreeFrames(cut) <==> f < i
      {
        FreePages(i, 0);
        RunOfOne(i);
      }
      forall f | 0 <= f < n ensures cut[f].free {
        assert f in FreeFrames(cut);
      }
    }

    /** Canonical form of every reachable state: list k holds the maximal aligned free runs of 2^k frames. */
    lemma ListsAreCanonical(k: nat, h: nat)
      requires Valid() && k <= MAX_ORDER
      ensures h in lists.rings[k] <==> MaximalFree(FreeFrames(cut), n, h, k)
    {
      FreeHeadsAreMaximalRuns(cut, h, k);
    }

    /** The counters account for every free frame. */
    lemma CountersAddUp()
      requires Valid()
      ensures |FreeFrames(cut)| == Counted(nrFree[..], 0)
    {
      CountersFrom(cut, lists.rings, nrFree[..], n, 0);
      assert FreeFrames(cut) == FreeFrom(cut, 0);
    }

    /** Two allocators with the same free frames have the same free blocks, however they got there. */
    lemma ListsForgetHistory(other: BuddySystem)
      requires Valid() && other.Valid() && n == other.n && FreeFrames(cut) == FreeFrames(other.cut)
      ensures SameFreeBlocks(lists.rings, other.lists.rings) && nrFree[..] == other.nrFree[..]
    {
      FreeBlocksForgetHistory(cut, other.cut);
      forall k | 0 <= k <= MAX_ORDER
        ensures |lists.rings[k]| == |other.lists.rings[k]|
      {
        List.RingDistinct(lists.rings, n, k);
        List.RingDistinct(other.lists.rings, n, k);
        SameMembersSameLength(lists.rings[k], other.lists.rings[k]);
      }
    }

    /** Freeing what has just been allocated restores every free list. */
    method AllocThenFree(order: nat) returns (r: Option<nat>)
      requires Valid()
      modifies this`cut, flag, level, nrFree, lists`rings, lists.prev, lists.next
      ensures Valid() && SameFreeBlocks(lists.rings, old(lists.rings)) && nrFree[..] == old(nrFree[..])
    {
      ghost var before, rings, nr := cut, lists.rings, nrFree[..];
      r := AllocBlock(order);
      if r.Some? {
        FreePages(r.value, order);
      }
      FreeBlocksForgetHistory(cut, before);
      forall k | 0 <= k <= MAX_ORDER
        ensures |lists.rings[k]| == |rings[k]|
      {
        List.RingDistinct(lists.rings, n, k);
        List.RingDistinct(rings, n, k);
        SameMembersSameLength(lists.rings[k], rings[k]);
      }
    }
  }
}

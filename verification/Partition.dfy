/** The unwritten invariant behind kernel/mm/mybuddy.c.

    The frames managed by the buddy system are at every moment cut into aligned blocks of
    1, 2, 4, 8 or 16 frames. Only the head of a block carries a meaningful level and flag;
    the descriptors of the other frames hold whatever earlier operations left there. This
    module is about that cut alone: when no two free buddies stand side by side, the free
    blocks are determined by the set of free frames. */
module Partition {
  import opened Bits

  const MAX_ORDER: nat := 4

  /** h ^ (1 << k) */
  function Pair(h: nat, k: nat): nat {
    if k > 0 then 2 * Pair(h / 2, k - 1) + h % 2
    else if h % 2 == 0 then h + 1
    else h - 1
  }

  /** pair_idx & page_idx: where the block that h and its pair make up together begins. */
  function Joined(h: nat, k: nat): nat {
    And(Pair(h, k), h)
  }

  datatype Block = Block(head: nat, order: nat, free: bool)

  /** For every frame the block it belongs to. */
  type Cut = seq<Block>

  predicate Covers(b: Block, f: nat) {
    b.head <= f < b.head + Size(b.order)
  }

  /** b is aligned, lies inside the range, and all its frames say so. */
  ghost predicate Whole(p: Cut, b: Block) {
    && b.order <= MAX_ORDER && Multiple(b.head, b.order)
    && b.head + Size(b.order) <= |p|
    && (forall g :: b.head <= g < b.head + Size(b.order) ==> p[g] == b)
  }

  ghost predicate Tiled(p: Cut) {
    && Multiple(|p|, MAX_ORDER)
    && (forall f :: 0 <= f < |p| ==> Covers(p[f], f) && Whole(p, p[f]))
  }

  ghost predicate Heads(p: Cut, h: nat, k: nat, free: bool) {
    h < |p| && p[h] == Block(h, k, free)
  }

  ghost predicate NoFreeBuddies(p: Cut) {
    forall h: nat, g: nat, k: nat :: Heads(p, h, k, true) && Heads(p, g, k, true) && k < MAX_ORDER ==> g != Pair(h, k)
  }

  ghost function Run(h: nat, k: nat): set<nat> {
    set f: nat | f < h + Size(k) && Covers(Block(h, k, true), f)
  }

  ghost function FreeFrames(p: Cut): set<nat> {
    set f: nat | f < |p| && p[f].free
  }

  ghost predicate Aligned(h: nat, k: nat, n: nat) {
    k <= MAX_ORDER && Multiple(h, k) && h + Size(k) <= n
  }

  /** An aligned run of free frames that lies in no larger one. */
  ghost predicate MaximalFree(free: set<nat>, n: nat, h: nat, k: nat) {
    && Aligned(h, k, n)
    && Run(h, k) <= free
    && (k < MAX_ORDER ==> !(Run(Joined(h, k), k + 1) <= free))
  }

  lemma {:induction false} SameSizeMeet(h: nat, g: nat, k: nat, f: nat)
    requires Multiple(h, k) && Multiple(g, k)
    requires h <= f < h + Size(k) && g <= f < g + Size(k)
    ensures h == g
  {
    if k == 0 {
    } else {
      SameSizeMeet(h / 2, g / 2, k - 1, f / 2);
    }
  }

  lemma {:induction false} HalvesAreMultiples(h: nat, k: nat)
    requires Multiple(h, k) && k > 0
    ensures Multiple(h, k - 1) && Multiple(h + Size(k - 1), k - 1)
  {
    if k <= 1 {
    } else {
      HalvesAreMultiples(h / 2, k - 1);
      assert (h + Size(k - 1)) / 2 == h / 2 + Size(k - 2);
    }
  }

  lemma {:induction false} CoarserIsFiner(h: nat, j: nat, k: nat)
    requires Multiple(h, k) && j <= k
    ensures Multiple(h, j)
  {
    if j == k {
    } else {
      HalvesAreMultiples(h, k);
      CoarserIsFiner(h, j, k - 1);
    }
  }

  /** Between two multiples of 1 << k there is room for 1 << k. */
  lemma {:induction false} GapBetweenMultiples(h: nat, n: nat, k: nat)
    requires Multiple(h, k) && Multiple(n, k) && h < n
    ensures h + Size(k) <= n
  {
    if k == 0 {
    } else {
      GapBetweenMultiples(h / 2, n / 2, k - 1);
    }
  }

  /** Aligned blocks nest: where two of them meet, the smaller lies inside the larger. */
  lemma {:induction false} Nested(h: nat, k: nat, g: nat, j: nat, f: nat)
    requires j <= k && Multiple(h, k) && Multiple(g, j)
    requires h <= f < h + Size(k) && g <= f < g + Size(j)
    ensures h <= g && g + Size(j) <= h + Size(k)
    decreases k
  {
    if j == k {
      SameSizeMeet(h, g, k, f);
    } else {
      HalvesAreMultiples(h, k);
      var m := h + Size(k - 1);
      Nested(if f < m then h else m, k - 1, g, j, f);
    }
  }

  lemma AndEvenSuccessor(x: nat)
    requires x % 2 == 0
    ensures And(x, x + 1) == And(x + 1, x) == x
  {
    AndSelf(x / 2);
    assert (x + 1) / 2 == x / 2;
  }

  /** Flipping bit k of an aligned index leads to the other half, and the common bits to the lower half. */
  lemma {:induction false} PairFacts(h: nat, k: nat)
    requires Multiple(h, k)
    ensures Multiple(Pair(h, k), k) && Pair(Pair(h, k), k) == h
    ensures Multiple(Joined(h, k), k + 1) && Joined(Pair(h, k), k) == Joined(h, k)
    ensures if Joined(h, k) == h then Pair(h, k) == h + Size(k)
            else Joined(h, k) == Pair(h, k) && h == Pair(h, k) + Size(k)
  {
    var b := Pair(h, k);
    if k == 0 {
      AndEvenSuccessor(if h % 2 == 0 then h else b);
      assert Multiple(And(b, h) / 2, 0);
    } else {
      PairFacts(h / 2, k - 1);
      assert b / 2 == Pair(h / 2, k - 1);
      assert And(b, h) == 2 * And(b / 2, h / 2);
      assert And(h, b) == 2 * And(h / 2, b / 2);
    }
  }

  lemma PairInRange(h: nat, k: nat, n: nat)
    requires k < MAX_ORDER && Multiple(h, k) && h < n && Multiple(n, MAX_ORDER)
    ensures Joined(h, k) + Size(k + 1) <= n
  {
    PairFacts(h, k);
    CoarserIsFiner(n, k + 1, MAX_ORDER);
    GapBetweenMultiples(Joined(h, k), n, k + 1);
  }

  /** Why looking at the pair's descriptor is safe: the pair of a block is itself the head of a block. */
  lemma PairIsHead(p: Cut, h: nat, k: nat)
    requires Tiled(p) && k < MAX_ORDER && h < |p| && p[h].head == h && p[h].order == k
    ensures var b := Pair(h, k); b < |p| && p[b].head == b && p[b].order <= k
  {
    var b := Pair(h, k);
    PairFacts(h, k);
    PairInRange(h, k, |p|);
    var q := p[b];
    if q.order > k {
      Nested(q.head, q.order, Joined(h, k), k + 1, b);
      assert false;
    } else {
      Nested(b, k, q.head, q.order, b);
    }
  }

  lemma BlockOfHead(p: Cut, h: nat, k: nat)
    requires Tiled(p) && h < |p| && p[h].head == h && p[h].order == k
    ensures Whole(p, p[h])
    ensures forall f :: 0 <= f < |p| && !(h <= f < h + Size(k)) ==>
      p[f].head + Size(p[f].order) <= h || h + Size(k) <= p[f].head
  {
    forall f | 0 <= f < |p| && !(h <= f < h + Size(k))
      ensures p[f].head + Size(p[f].order) <= h || h + Size(k) <= p[f].head
    {
      assert Covers(p[f], f) && Whole(p, p[f]);
      assert p[p[f].head] == p[f];
    }
  }

  /** A wholly free aligned run lies inside one free block: two free halves would be free buddies. */
  lemma {:induction false} FreeRunInOneBlock(p: Cut, h: nat, k: nat) returns (b: Block)
    requires Tiled(p) && NoFreeBuddies(p) && Aligned(h, k, |p|) && Run(h, k) <= FreeFrames(p)
    ensures b == p[h] && b.free && b.order >= k
    ensures b.head <= h && h + Size(k) <= b.head + Size(b.order)
    decreases k
  {
    b := p[h];
    assert h in Run(h, k);
    if k == 0 {
    } else {
      var m := h + Size(k - 1);
      HalvesAreMultiples(h, k);
      assert Run(h, k - 1) <= Run(h, k) && Run(m, k - 1) <= Run(h, k);
      b := FreeRunInOneBlock(p, h, k - 1);
      var c := FreeRunInOneBlock(p, m, k - 1);
      if b.order == k - 1 {
        SameSizeMeet(b.head, h, k - 1, h);
        NotTwoFreeHalves(p, h, k - 1, c);
        assert false;
      }
      Nested(b.head, b.order, h, k, h);
    }
  }

  /** When the lower half is a free block of its own, the upper half lies in none. */
  lemma NotTwoFreeHalves(p: Cut, h: nat, k: nat, c: Block)
    requires Tiled(p) && NoFreeBuddies(p) && k < MAX_ORDER && Multiple(h, k + 1)
    requires Heads(p, h, k, true) && h + Size(k) < |p| && c == p[h + Size(k)] && c.order >= k
    ensures !c.free
  {
    var m := h + Size(k);
    UpperHalfIsPair(h, k);
    PairIsHead(p, h, k);
    assert Covers(c, m) && Whole(p, c);
    assert !Heads(p, Pair(h, k), k, true);
  }

  lemma UpperHalfIsPair(h: nat, k: nat)
    requires Multiple(h, k + 1)
    ensures Pair(h, k) == h + Size(k) && Joined(h, k) == h
  {
    HalvesAreMultiples(h, k + 1);
    PairFacts(h, k);
    SameSizeMeet(Joined(h, k), h, k + 1, h);
  }

  /** Canonical form: the free blocks are exactly the maximal aligned runs of free frames. */
  lemma FreeHeadsAreMaximalRuns(p: Cut, h: nat, k: nat)
    requires Tiled(p) && NoFreeBuddies(p)
    ensures Heads(p, h, k, true) <==> MaximalFree(FreeFrames(p), |p|, h, k)
  {
    if Heads(p, h, k, true) {
      FreeHeadIsMaximal(p, h, k);
    }
    if MaximalFree(FreeFrames(p), |p|, h, k) {
      MaximalRunIsFreeHead(p, h, k);
    }
  }

  lemma FreeHeadIsMaximal(p: Cut, h: nat, k: nat)
    requires Tiled(p) && NoFreeBuddies(p) && Heads(p, h, k, true)
    ensures MaximalFree(FreeFrames(p), |p|, h, k)
  {
    BlockOfHead(p, h, k);
    if k < MAX_ORDER && Run(Joined(h, k), k + 1) <= FreeFrames(p) {
      PairFacts(h, k);
      PairInRange(h, k, |p|);
      var b := FreeRunInOneBlock(p, Joined(h, k), k + 1);
      SizeGrows(k + 1, b.order);
      assert Covers(b, h);
      assert false;
    }
  }

  lemma MaximalRunIsFreeHead(p: Cut, h: nat, k: nat)
    requires Tiled(p) && NoFreeBuddies(p) && MaximalFree(FreeFrames(p), |p|, h, k)
    ensures Heads(p, h, k, true)
  {
    var b := FreeRunInOneBlock(p, h, k);
    if b.order > k {
      PairFacts(h, k);
      Nested(b.head, b.order, Joined(h, k), k + 1, h);
      assert false;
    }
    SameSizeMeet(b.head, h, k, h);
  }

  /** The free blocks do not depend on the history that led to the set of free frames. */
  lemma FreeBlocksForgetHistory(p: Cut, q: Cut)
    requires Tiled(p) && NoFreeBuddies(p) && Tiled(q) && NoFreeBuddies(q)
    requires |p| == |q| && FreeFrames(p) == FreeFrames(q)
    ensures forall h: nat, k: nat :: Heads(p, h, k, true) <==> Heads(q, h, k, true)
  {
    forall h: nat, k: nat ensures Heads(p, h, k, true) <==> Heads(q, h, k, true) {
      FreeHeadsAreMaximalRuns(p, h, k);
      FreeHeadsAreMaximalRuns(q, h, k);
    }
  }

  /** A request for order k can be served from a free block exactly when an aligned run of 2^k frames is free. */
  lemma RoomIffFreeBlock(p: Cut, k: nat)
    requires Tiled(p) && NoFreeBuddies(p) && k <= MAX_ORDER
    ensures (exists h: nat, j: nat :: k <= j <= MAX_ORDER && Heads(p, h, j, true)) <==>
            (exists h: nat :: Aligned(h, k, |p|) && Run(h, k) <= FreeFrames(p))
  {
    if h: nat, j: nat :| k <= j <= MAX_ORDER && Heads(p, h, j, true) {
      BlockOfHead(p, h, j);
      SizeGrows(k, j);
      CoarserIsFiner(h, k, j);
      assert Aligned(h, k, |p|) && Run(h, k) <= FreeFrames(p);
    }
    if h: nat :| Aligned(h, k, |p|) && Run(h, k) <= FreeFrames(p) {
      var b := FreeRunInOneBlock(p, h, k);
      assert Covers(b, b.head);
      assert Heads(p, b.head, b.order, true);
    }
  }

  /** When every frame is free, only blocks of the largest order are left. */
  lemma AllFreeMeansAllLargest(p: Cut, h: nat, k: nat)
    requires Tiled(p) && NoFreeBuddies(p) && (forall f :: 0 <= f < |p| ==> p[f].free)
    ensures Heads(p, h, k, true) <==> k == MAX_ORDER && h < |p| && Multiple(h, MAX_ORDER)
  {
    FreeHeadsAreMaximalRuns(p, h, k);
    if Heads(p, h, k, true) && k < MAX_ORDER {
      BlockOfHead(p, h, k);
      PairInRange(h, k, |p|);
    }
    if h < |p| && Multiple(h, MAX_ORDER) {
      GapBetweenMultiples(h, |p|, MAX_ORDER);
    }
  }

  /** The cut in which frames h .. h + 2^k - 1 have become one block. */
  ghost function SetBlock(p: Cut, h: nat, k: nat, free: bool): (q: Cut)
    requires k <= MAX_ORDER
    ensures |q| == |p|
    ensures forall f :: 0 <= f < |p| ==> q[f] == if h <= f < h + Size(k) then Block(h, k, free) else p[f]
  {
    seq(|p|, f requires 0 <= f < |p| => if h <= f < h + Size(k) then Block(h, k, free) else p[f])
  }

  lemma RecolourIsTiled(p: Cut, h: nat, k: nat, free: bool)
    requires Tiled(p) && h < |p| && p[h].head == h && p[h].order == k
    ensures Tiled(SetBlock(p, h, k, free))
    ensures FreeFrames(SetBlock(p, h, k, free)) == if free then FreeFrames(p) + Run(h, k) else FreeFrames(p) - Run(h, k)
  {
    BlockOfHead(p, h, k);
  }

  /** Recutting the frames from a up to e, where blocks of p end, keeps a tiling when the new pieces fit. */
  lemma RecutIsTiled(p: Cut, q: Cut, a: nat, e: nat)
    requires Tiled(p) && |q| == |p|
    requires forall f :: 0 <= f < |p| && !(a <= f < e) ==> q[f] == p[f]
    requires forall f :: 0 <= f < |p| && !(a <= f < e) ==> p[f].head + Size(p[f].order) <= a || e <= p[f].head
    requires forall f :: 0 <= f < |p| && a <= f < e ==> Covers(q[f], f) && Whole(q, q[f])
    ensures Tiled(q)
  {
    forall f | 0 <= f < |q|
      ensures Covers(q[f], f) && Whole(q, q[f])
    {
      if !(a <= f < e) {
        assert Covers(p[f], f) && Whole(p, p[f]);
      }
    }
  }

  lemma MergeIsTiled(p: Cut, h: nat, k: nat)
    requires Tiled(p) && k < MAX_ORDER && h < |p| && p[h].head == h && p[h].order == k
    requires Pair(h, k) < |p| && p[Pair(h, k)].head == Pair(h, k) && p[Pair(h, k)].order == k
    ensures Tiled(SetBlock(p, Joined(h, k), k + 1, false))
    ensures FreeFrames(SetBlock(p, Joined(h, k), k + 1, false)) == FreeFrames(p) - Run(Joined(h, k), k + 1)
  {
    var b, a := Pair(h, k), Joined(h, k);
    PairFacts(h, k);
    BlockOfHead(p, h, k);
    BlockOfHead(p, b, k);
    TwoHalvesMerge(p, a, k, a + Size(k));
  }

  lemma TwoHalvesMerge(p: Cut, a: nat, k: nat, m: nat)
    requires Tiled(p) && k < MAX_ORDER && m == a + Size(k) && m < |p| && Multiple(a, k + 1)
    requires p[a].head == a && p[a].order == k && p[m].head == m && p[m].order == k
    ensures Tiled(SetBlock(p, a, k + 1, false))
    ensures FreeFrames(SetBlock(p, a, k + 1, false)) == FreeFrames(p) - Run(a, k + 1)
  {
    var q := SetBlock(p, a, k + 1, false);
    BlockOfHead(p, a, k);
    BlockOfHead(p, m, k);
    assert Whole(q, Block(a, k + 1, false));
    RecutIsTiled(p, q, a, a + Size(k + 1));
    NoLongerFree(p, a, k + 1);
  }

  lemma NoLongerFree(p: Cut, h: nat, k: nat)
    requires k <= MAX_ORDER
    ensures FreeFrames(SetBlock(p, h, k, false)) == FreeFrames(p) - Run(h, k)
  {
  }

  /** Handing the upper half of a block back. */
  ghost function Halved(p: Cut, h: nat, k: nat): Cut
    requires 0 < k <= MAX_ORDER
  {
    SetBlock(SetBlock(p, h, k - 1, false), h + Size(k - 1), k - 1, true)
  }

  lemma HalvedFrames(p: Cut, h: nat, k: nat)
    requires Whole(p, Block(h, k, false)) && 0 < k
    ensures FreeFrames(Halved(p, h, k)) == FreeFrames(p) + Run(h + Size(k - 1), k - 1)
  {
  }

  lemma HalvedIsTiled(p: Cut, h: nat, k: nat)
    requires Tiled(p) && 0 < k <= MAX_ORDER && Heads(p, h, k, false)
    ensures Tiled(Halved(p, h, k))
    ensures FreeFrames(Halved(p, h, k)) == FreeFrames(p) + Run(h + Size(k - 1), k - 1)
    ensures Heads(Halved(p, h, k), h, k - 1, false) && Heads(Halved(p, h, k), h + Size(k - 1), k - 1, true)
  {
    BlockOfHead(p, h, k);
    HalvesAreMultiples(h, k);
    var q, m := Halved(p, h, k), h + Size(k - 1);
    assert Whole(q, Block(h, k - 1, false));
    assert Whole(q, Block(m, k - 1, true));
    RecutIsTiled(p, q, h, h + Size(k));
    HalvedFrames(p, h, k);
  }

  /** What the three ways of recutting do to the heads. */
  lemma HeadsAfterRecolour(p: Cut, h: nat, k: nat, free: bool)
    requires Tiled(p) && h < |p| && p[h].head == h && p[h].order == k
    ensures forall g: nat, j: nat, b :: Heads(SetBlock(p, h, k, free), g, j, b) <==>
      if g == h then j == k && b == free else Heads(p, g, j, b)
  {
    BlockOfHead(p, h, k);
  }

  lemma HeadsAfterMerge(p: Cut, h: nat, x: nat, k: nat, a: nat)
    requires Tiled(p) && k < MAX_ORDER && h < |p| && p[h].head == h && p[h].order == k
    requires x < |p| && p[x].head == x && p[x].order == k
    requires (a == h && x == h + Size(k)) || (a == x && h == x + Size(k))
    ensures forall g: nat, j: nat, b: bool :: Heads(SetBlock(p, a, k + 1, false), g, j, b) <==>
      if g == a then j == k + 1 && !b else g != h && g != x && Heads(p, g, j, b)
  {
    var m := a + Size(k);
    BlockOfHead(p, a, k);
    BlockOfHead(p, m, k);
    var q := SetBlock(p, a, k + 1, false);
    forall g: nat, j: nat, b: bool
      ensures Heads(q, g, j, b) <==> if g == a then j == k + 1 && !b else g != h && g != x && Heads(p, g, j, b)
    {
      if a < g < a + Size(k + 1) {
        assert q[g].head == a;
        assert p[g] == if g < m then p[a] else p[m];
      }
    }
  }

  lemma HeadsAfterHalving(p: Cut, h: nat, k: nat)
    requires Tiled(p) && 0 < k <= MAX_ORDER && Heads(p, h, k, false)
    ensures forall g: nat, j: nat, b :: Heads(Halved(p, h, k), g, j, b) <==>
      if g == h then j == k - 1 && !b else if g == h + Size(k - 1) then j == k - 1 && b else Heads(p, g, j, b)
  {
    BlockOfHead(p, h, k);
    var q, m := Halved(p, h, k), h + Size(k - 1);
    assert forall f :: 0 <= f < |p| ==>
      q[f] == if h <= f < m then Block(h, k - 1, false)
              else if m <= f < m + Size(k - 1) then Block(m, k - 1, true) else p[f];
  }

  lemma FewerFreeStayApart(p: Cut, q: Cut)
    requires NoFreeBuddies(p)
    requires forall g: nat, j: nat :: Heads(q, g, j, true) ==> Heads(p, g, j, true)
    ensures NoFreeBuddies(q)
  {
    forall h: nat, g: nat, k: nat | Heads(q, h, k, true) && Heads(q, g, k, true) && k < MAX_ORDER
      ensures g != Pair(h, k)
    {
      assert Heads(p, h, k, true) && Heads(p, g, k, true);
    }
  }

  /** One free block more, of order i at m, whose pair is not a free block of order i. */
  lemma OneMoreStaysApart(p: Cut, q: Cut, m: nat, i: nat)
    requires Tiled(q) && NoFreeBuddies(p)
    requires forall g: nat, j: nat :: Heads(q, g, j, true) ==> (g == m && j == i) || Heads(p, g, j, true)
    requires i < MAX_ORDER ==> !Heads(q, Pair(m, i), i, true)
    ensures NoFreeBuddies(q)
  {
    forall g: nat, x: nat, j: nat | Heads(q, g, j, true) && Heads(q, x, j, true) && j < MAX_ORDER
      ensures x != Pair(g, j)
    {
      assert Whole(q, q[g]);
      PairFacts(g, j);
      assert g == m && j == i ==> x != Pair(m, i);
      assert x == m && j == i && x == Pair(g, j) ==> g == Pair(m, i);
    }
  }

  /** Freeing a block whose pair is not a free block of the same order puts no free buddies side by side. */
  lemma ReleaseKeepsApart(p: Cut, h: nat, k: nat)
    requires Tiled(p) && NoFreeBuddies(p) && Heads(p, h, k, false)
    requires k < MAX_ORDER ==> !Heads(p, Pair(h, k), k, true)
    ensures NoFreeBuddies(SetBlock(p, h, k, true))
  {
    var q := SetBlock(p, h, k, true);
    RecolourIsTiled(p, h, k, true);
    HeadsAfterRecolour(p, h, k, true);
    assert Whole(p, p[h]);
    PairFacts(h, k);
    OneMoreStaysApart(p, q, h, k);
  }

  lemma HalvingKeepsApart(p: Cut, h: nat, k: nat)
    requires Tiled(p) && NoFreeBuddies(p) && 0 < k <= MAX_ORDER && Heads(p, h, k, false)
    ensures NoFreeBuddies(Halved(p, h, k))
  {
    var q := Halved(p, h, k);
    HalvedIsTiled(p, h, k);
    HeadsAfterHalving(p, h, k);
    assert Whole(p, p[h]);
    UpperHalfIsPair(h, k - 1);
    HalvesAreMultiples(h, k);
    PairFacts(h, k - 1);
    OneMoreStaysApart(p, q, h + Size(k - 1), k - 1);
  }

  lemma RunOfOne(h: nat)
    ensures Run(h, 0) == {h}
  {
    assert Size(0) == 1;
    assert Covers(Block(h, 0, true), h);
  }

  lemma {:induction false} RunSize(h: nat, k: nat)
    ensures |Run(h, k)| == Size(k)
    decreases k
  {
    if k == 0 {
      RunOfOne(h);
    } else {
      var m := h + Size(k - 1);
      RunSize(h, k - 1);
      RunSize(m, k - 1);
      RunHalves(h, k, m);
    }
  }

  lemma RunHalves(h: nat, k: nat, m: nat)
    requires k > 0 && m == h + Size(k - 1)
    ensures Run(h, k) == Run(h, k - 1) + Run(m, k - 1) && Run(h, k - 1) !! Run(m, k - 1)
  {
  }

  /** The frames of the blocks of order k headed by s. */
  ghost function FramesOf(s: seq<nat>, k: nat): set<nat> {
    if s == [] then {} else Run(s[0], k) + FramesOf(s[1..], k)
  }

  lemma {:induction false} FramesOfMember(s: seq<nat>, k: nat, f: nat)
    ensures f in FramesOf(s, k) <==> exists i :: 0 <= i < |s| && f in Run(s[i], k)
  {
    if s == [] {
    } else {
      FramesOfMember(s[1..], k, f);
      if i :| 0 <= i < |s| && f in Run(s[i], k) && i > 0 {
        assert s[1..][i - 1] == s[i];
      }
      if f in FramesOf(s[1..], k) {
        var j :| 0 <= j < |s[1..]| && f in Run(s[1..][j], k);
        assert s[j + 1] == s[1..][j];
      }
    }
  }

  /** Distinct heads of order k own 2^k frames each. */
  lemma {:induction false} FramesOfSize(p: Cut, s: seq<nat>, k: nat)
    requires Tiled(p)
    requires forall i :: 0 <= i < |s| ==> Heads(p, s[i], k, true)
    requires forall i, j :: 0 <= i < j < |s| ==> s[i] != s[j]
    ensures |FramesOf(s, k)| == Size(k) * |s|
  {
    if s == [] {
    } else {
      var rest := s[1..];
      FramesOfSize(p, rest, k);
      RunSize(s[0], k);
      forall f: nat | f in Run(s[0], k)
        ensures f !in FramesOf(rest, k)
      {
        FramesOfMember(rest, k, f);
        forall i | 0 <= i < |rest| ensures f !in Run(rest[i], k) {
          BlockOfHead(p, s[0], k);
          assert rest[i] == s[i + 1];
          BlockOfHead(p, rest[i], k);
        }
      }
      assert FramesOf(s, k) == Run(s[0], k) + FramesOf(rest, k);
      assert Run(s[0], k) !! FramesOf(rest, k);
      calc {
        |FramesOf(s, k)|;
        Size(k) + Size(k) * |rest|;
        Size(k) * (1 + |rest|);
      }
    }
  }

  /** Two blocks of one cut share no frame. */
  lemma BlocksAreDisjoint(p: Cut, h: nat, k: nat, g: nat, j: nat, a: bool, b: bool)
    requires Tiled(p) && Heads(p, h, k, a) && Heads(p, g, j, b) && h != g
    ensures Run(h, k) !! Run(g, j)
  {
    BlockOfHead(p, h, k);
    BlockOfHead(p, g, j);
  }
}

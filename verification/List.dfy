/** The circular doubly linked lists of include/zjunix/list.h.

    List nodes are embedded in other structures, so a node is named here by a number:
    numbers below `entries` are embeddable nodes, and number `entries + r` is the
    stand-alone head of ring `r`. Pointers live in the two arrays `prev` and `next`.
    The ghost field `rings` gives, for every head, the entries met on the way round. */
module List {
  /** What list_del leaves behind in the node it takes out. */
  const POISON1: int := -1
  const POISON2: int := -2

  /** The nodes of c, in order, form one closed ring. */
  ghost predicate Linked(p: seq<int>, n: seq<int>, c: seq<nat>) {
    && |c| > 0
    && |p| == |n|
    && (forall i :: 0 <= i < |c| ==> c[i] < |n|)
    && (forall i :: 0 <= i < |c| - 1 ==> n[c[i]] == c[i + 1])
    && (forall i :: 0 < i < |c| ==> p[c[i]] == c[i - 1])
    && n[c[|c| - 1]] == c[0]
    && p[c[0]] == c[|c| - 1]
  }

  /** No entry is met twice, neither in one ring nor in two. */
  ghost predicate Separate(rings: seq<seq<nat>>, entries: nat) {
    && (forall r, i :: 0 <= r < |rings| && 0 <= i < |rings[r]| ==> rings[r][i] < entries)
    && (forall r, i, q, j {:trigger SameNode(rings, r, i, q, j)} ::
          (0 <= r < |rings| && 0 <= i < |rings[r]| && 0 <= q < |rings| && 0 <= j < |rings[q]|
           && SameNode(rings, r, i, q, j))
          ==> r == q && i == j)
  }

  /** Entry i of ring r and entry j of ring q are one node. */
  predicate SameNode(rings: seq<seq<nat>>, r: nat, i: nat, q: nat, j: nat)
    requires r < |rings| && i < |rings[r]| && q < |rings| && j < |rings[q]|
  {
    rings[r][i] == rings[q][j]
  }

  lemma RingDistinct(rings: seq<seq<nat>>, entries: nat, r: nat)
    requires Separate(rings, entries) && r < |rings|
    ensures forall i, j :: 0 <= i < j < |rings[r]| ==> rings[r][i] != rings[r][j]
  {
    forall i, j | 0 <= i < j < |rings[r]| ensures rings[r][i] != rings[r][j] {
      assert !SameNode(rings, r, i, r, j);
    }
  }

  /** Ring r with its head in front. */
  ghost function Cycle(entries: nat, rings: seq<seq<nat>>, r: nat): seq<nat>
    requires r < |rings|
  {
    [entries + r] + rings[r]
  }

  ghost predicate Wired(p: seq<int>, n: seq<int>, entries: nat, rings: seq<seq<nat>>) {
    forall r :: 0 <= r < |rings| ==> Linked(p, n, Cycle(entries, rings, r))
  }

  /** x hangs in no ring, so its own pointers mean nothing. */
  ghost predicate Loose(rings: seq<seq<nat>>, x: nat) {
    forall r :: 0 <= r < |rings| ==> x !in rings[r]
  }

  /** Where the next pointer of the k-th node of a ring leads, and the prev pointer. */
  lemma Neighbours(p: seq<int>, n: seq<int>, c: seq<nat>, k: nat)
    requires Linked(p, n, c) && k < |c|
    ensures n[c[k]] == if k + 1 < |c| then c[k + 1] else c[0]
    ensures p[c[k]] == if k > 0 then c[k - 1] else c[|c| - 1]
  {
  }

  /** Two rings share no node, heads included. */
  lemma RingsApart(entries: nat, rings: seq<seq<nat>>, r: nat, q: nat)
    requires Separate(rings, entries) && r < |rings| && q < |rings| && q != r
    ensures forall e :: e in Cycle(entries, rings, r) ==> e !in Cycle(entries, rings, q)
  {
    var c, d := Cycle(entries, rings, r), Cycle(entries, rings, q);
    forall i, j | 0 <= i < |c| && 0 <= j < |d|
      ensures c[i] != d[j]
    {
      assert i > 0 ==> c[i] == rings[r][i - 1];
      assert j > 0 ==> d[j] == rings[q][j - 1];
      assert i > 0 && j > 0 ==> !SameNode(rings, r, i - 1, q, j - 1);
    }
  }

  lemma CycleDistinct(entries: nat, rings: seq<seq<nat>>, r: nat)
    requires Separate(rings, entries) && r < |rings|
    ensures var c := Cycle(entries, rings, r); forall i, j :: 0 <= i < j < |c| ==> c[i] != c[j]
  {
    var c := Cycle(entries, rings, r);
    forall i, j | 0 <= i < j < |c| ensures c[i] != c[j] {
      assert i > 0 ==> !SameNode(rings, r, i - 1, r, j - 1);
    }
  }

  /** Writing only to x, which hangs in no ring, and to nodes of ring r leaves the other rings wired. */
  lemma OtherRingStays(p: seq<int>, n: seq<int>, p': seq<int>, n': seq<int>, entries: nat, rings: seq<seq<nat>>,
                       r: nat, q: nat, x: nat, a: nat, b: nat)
    requires Separate(rings, entries) && r < |rings| && q < |rings| && q != r
    requires Linked(p, n, Cycle(entries, rings, q))
    requires |p'| == |n'| == |p| == |n|
    requires a in Cycle(entries, rings, r) && b in Cycle(entries, rings, r)
    requires x in Cycle(entries, rings, r) || (x < entries && x !in rings[q])
    requires forall e :: 0 <= e < |n| && e != x && e != a && e != b ==> p'[e] == p[e] && n'[e] == n[e]
    ensures Linked(p', n', Cycle(entries, rings, q))
  {
    RingsApart(entries, rings, r, q);
    var c := Cycle(entries, rings, q);
    assert x !in c;
    assert forall i :: 0 <= i < |c| ==> c[i] in c;
  }

  /** Splicing x in right behind the k-th node of a ring, in front of node b. */
  lemma LinkedInsert(p: seq<int>, n: seq<int>, p': seq<int>, n': seq<int>, c: seq<nat>, k: nat, x: nat, b: nat)
    requires Linked(p, n, c) && k < |c| && x < |n| && x !in c
    requires forall i, j :: 0 <= i < j < |c| ==> c[i] != c[j]
    requires b == if k + 1 < |c| then c[k + 1] else c[0]
    requires n' == n[x := b][c[k] := x]
    requires p' == p[x := c[k]][b := x]
    ensures Linked(p', n', c[..k + 1] + [x] + c[k + 1..])
  {
    var d := c[..k + 1] + [x] + c[k + 1..];
    forall i | 0 <= i < |d| - 1 ensures n'[d[i]] == d[i + 1] {
      if i < k || i > k + 1 {
        var j := if i < k then i else i - 1;
        assert d[i] == c[j] && c[j] != c[k] && c[j] != x;
      }
    }
    forall i | 0 < i < |d| ensures p'[d[i]] == d[i - 1] {
      if i <= k || i > k + 2 {
        var j := if i <= k then i else i - 1;
        assert d[i] == c[j] && c[j] != b && c[j] != x;
      }
    }
    if k + 1 < |c| {
      assert c[|c| - 1] != c[k] && c[0] != b;
    }
  }

  /** Unhooking the k-th node, which is not the head and stands between a and b. */
  lemma LinkedRemove(p: seq<int>, n: seq<int>, p': seq<int>, n': seq<int>, c: seq<nat>, k: nat, a: nat, b: nat)
    requires Linked(p, n, c) && 0 < k < |c|
    requires forall i, j :: 0 <= i < j < |c| ==> c[i] != c[j]
    requires |p'| == |n'| == |n|
    requires a == c[k - 1] && b == if k + 1 < |c| then c[k + 1] else c[0]
    requires forall e :: 0 <= e < |n| && e != c[k] ==> n'[e] == n[a := b][e] && p'[e] == p[b := a][e]
    ensures Linked(p', n', c[..k] + c[k + 1..])
  {
    var d := c[..k] + c[k + 1..];
    forall i | 0 <= i < |d| - 1 ensures n'[d[i]] == d[i + 1] {
      var j := if i < k then i else i + 1;
      assert d[i] == c[j] && c[j] != c[k] && d[i + 1] == if i + 1 < k then c[i + 1] else c[i + 2];
    }
    forall i | 0 < i < |d| ensures p'[d[i]] == d[i - 1] {
      var j := if i < k then i else i + 1;
      assert d[i] == c[j] && c[j] != c[k] && d[i - 1] == if i - 1 < k then c[i - 1] else c[i];
    }
    assert d[|d| - 1] == if k + 1 < |c| then c[|c| - 1] else c[k - 1];
  }

  /** rings with x put in as entry number k of ring r. */
  ghost function Spliced(rings: seq<seq<nat>>, r: nat, k: nat, x: nat): seq<seq<nat>>
    requires r < |rings| && k <= |rings[r]|
  {
    rings[r := rings[r][..k] + [x] + rings[r][k..]]
  }

  /** rings with entry number k of ring r taken out. */
  ghost function Cut(rings: seq<seq<nat>>, r: nat, k: nat): seq<seq<nat>>
    requires r < |rings| && k < |rings[r]|
  {
    rings[r := rings[r][..k] + rings[r][k + 1..]]
  }

  lemma SplicedIsSeparate(rings: seq<seq<nat>>, entries: nat, r: nat, k: nat, x: nat)
    requires Separate(rings, entries) && r < |rings| && k <= |rings[r]|
    requires x < entries && Loose(rings, x)
    ensures Separate(Spliced(rings, r, k, x), entries)
  {
    var s := Spliced(rings, r, k, x);
    forall q, i, q', i' | 0 <= q < |s| && 0 <= i < |s[q]| && 0 <= q' < |s| && 0 <= i' < |s[q']| && s[q][i] == s[q'][i']
      ensures q == q' && i == i'
    {
      if s[q][i] == x {
        assert q == r && i == k && q' == r && i' == k;
      } else {
        var j := if q == r && i > k then i - 1 else i;
        var j' := if q' == r && i' > k then i' - 1 else i';
        assert s[q][i] == rings[q][j] && s[q'][i'] == rings[q'][j'];
        assert SameNode(rings, q, j, q', j');
      }
    }
  }

  lemma CutIsSeparate(rings: seq<seq<nat>>, entries: nat, r: nat, k: nat)
    requires Separate(rings, entries) && r < |rings| && k < |rings[r]|
    ensures Separate(Cut(rings, r, k), entries)
    ensures Loose(Cut(rings, r, k), rings[r][k])
  {
    var s := Cut(rings, r, k);
    forall q, i, q', i' | 0 <= q < |s| && 0 <= i < |s[q]| && 0 <= q' < |s| && 0 <= i' < |s[q']|
                          && SameNode(s, q, i, q', i')
      ensures q == q' && i == i'
    {
      assert SameNode(rings, q, if q == r && i >= k then i + 1 else i, q', if q' == r && i' >= k then i' + 1 else i');
    }
    forall q, i | 0 <= q < |s| && 0 <= i < |s[q]| ensures s[q][i] != rings[r][k] && s[q][i] < entries {
      assert !SameNode(rings, q, if q == r && i >= k then i + 1 else i, r, k);
    }
  }

  /** Four pointer writes in __list_add's order, seen on the rings. */
  lemma SpliceStaysWired(p: seq<int>, n: seq<int>, p': seq<int>, n': seq<int>, entries: nat, rings: seq<seq<nat>>,
                         r: nat, k: nat, x: nat, b: nat)
    requires Separate(rings, entries) && Wired(p, n, entries, rings)
    requires |p| == |n| == entries + |rings|
    requires r < |rings| && k <= |rings[r]| && x < entries && Loose(rings, x)
    requires b == n[Cycle(entries, rings, r)[k]]
    requires n' == n[x := b][Cycle(entries, rings, r)[k] := x]
    requires b < |p| && p' == p[x := Cycle(entries, rings, r)[k]][b := x]
    ensures Wired(p', n', entries, Spliced(rings, r, k, x))
  {
    var s := Spliced(rings, r, k, x);
    Neighbours(p, n, Cycle(entries, rings, r), k);
    SplicedRing(p, n, p', n', entries, rings, r, k, x, b);
    forall q | 0 <= q < |s| ensures Linked(p', n', Cycle(entries, s, q)) {
      if q != r {
        OtherRingStays(p, n, p', n', entries, rings, r, q, x, Cycle(entries, rings, r)[k], b);
        assert Cycle(entries, s, q) == Cycle(entries, rings, q);
      }
    }
  }

  lemma SplicedRing(p: seq<int>, n: seq<int>, p': seq<int>, n': seq<int>, entries: nat, rings: seq<seq<nat>>,
                    r: nat, k: nat, x: nat, b: nat)
    requires Separate(rings, entries) && r < |rings| && k <= |rings[r]| && x < entries && x !in rings[r]
    requires Linked(p, n, Cycle(entries, rings, r)) && |p| == |n| == entries + |rings|
    requires b == n[Cycle(entries, rings, r)[k]]
    requires n' == n[x := b][Cycle(entries, rings, r)[k] := x]
    requires b < |p| && p' == p[x := Cycle(entries, rings, r)[k]][b := x]
    ensures Linked(p', n', Cycle(entries, Spliced(rings, r, k, x), r))
  {
    var c := Cycle(entries, rings, r);
    CycleDistinct(entries, rings, r);
    Neighbours(p, n, c, k);
    LinkedInsert(p, n, p', n', c, k, x, b);
    SplicedCycle(entries, rings, r, k, x);
  }

  lemma SplicedCycle(entries: nat, rings: seq<seq<nat>>, r: nat, k: nat, x: nat)
    requires r < |rings| && k <= |rings[r]|
    ensures var c := Cycle(entries, rings, r);
      c[..k + 1] + [x] + c[k + 1..] == Cycle(entries, Spliced(rings, r, k, x), r)
  {
  }

  /** The two writes of __list_del, and any two writes into the node taken out. */
  lemma CutStaysWired(p: seq<int>, n: seq<int>, p': seq<int>, n': seq<int>, entries: nat, rings: seq<seq<nat>>,
                      r: nat, k: nat, a: nat, b: nat)
    requires Separate(rings, entries) && Wired(p, n, entries, rings)
    requires |p| == |n| == |p'| == |n'| == entries + |rings|
    requires r < |rings| && k < |rings[r]|
    requires a == p[rings[r][k]] && b == n[rings[r][k]] && a < |p| && b < |p|
    requires n' == n[a := b][rings[r][k] := n'[rings[r][k]]]
    requires p' == p[b := a][rings[r][k] := p'[rings[r][k]]]
    ensures Wired(p', n', entries, Cut(rings, r, k))
  {
    var c, s := Cycle(entries, rings, r), Cut(rings, r, k);
    CycleDistinct(entries, rings, r);
    assert c[k + 1] == rings[r][k];
    Neighbours(p, n, c, k + 1);
    LinkedRemove(p, n, p', n', c, k + 1, a, b);
    assert c[..k + 1] + c[k + 2..] == Cycle(entries, s, r);
    forall q | 0 <= q < |s| ensures Linked(p', n', Cycle(entries, s, q)) {
      if q != r {
        OtherRingStays(p, n, p', n', entries, rings, r, q, rings[r][k], a, b);
        assert Cycle(entries, s, q) == Cycle(entries, rings, q);
      }
    }
  }

  class ListArena {
    const entries: nat
    const prev: array<int>
    const next: array<int>
    ghost var rings: seq<seq<nat>>

    ghost predicate Valid()
      reads this, prev, next
    {
      && prev != next
      && prev.Length == next.Length == entries + |rings|
      && Separate(rings, entries)
      && Wired(prev[..], next[..], entries, rings)
    }

    /** INIT_LIST_HEAD on every head and every entry. */
    constructor (entries: nat, heads: nat)
      ensures Valid() && fresh(prev) && fresh(next) && this.entries == entries
      ensures rings == seq(heads, _ => [])
    {
      this.entries := entries;
      prev := new int[entries + heads](i => i);
      next := new int[entries + heads](i => i);
      rings := seq(heads, _ => []);
    }

    /** __list_add(x, a, next(a)): the shared body of list_add and list_add_tail. */
    method InsertAfter(x: nat, a: nat, ghost r: nat, ghost k: nat)
      requires Valid() && r < |rings| && k <= |rings[r]|
      requires x < entries && Loose(rings, x)
      requires a == Cycle(entries, rings, r)[k]
      modifies this`rings, prev, next
      ensures Valid()
      ensures rings == old(rings)[r := old(rings[r])[..k] + [x] + old(rings[r])[k..]]
    {
      ghost var p, n := prev[..], next[..];
      Neighbours(p, n, Cycle(entries, rings, r), k);
      var b := next[a];
      next[x] := b;
      prev[x] := a;
      next[a] := x;
      prev[b] := x;
      SpliceStaysWired(p, n, prev[..], next[..], entries, rings, r, k, x, b);
      SplicedIsSeparate(rings, entries, r, k, x);
      rings := Spliced(rings, r, k, x);
    }

    /** list_add: x becomes the first entry behind the head. */
    method Add(x: nat, head: nat)
      requires Valid() && entries <= head < entries + |rings|
      requires x < entries && Loose(rings, x)
      modifies this`rings, prev, next
      ensures Valid()
      ensures rings == old(rings)[head - entries := [x] + old(rings[head - entries])]
    {
      ghost var s := rings[head - entries];
      assert s[..0] + [x] + s[0..] == [x] + s;
      InsertAfter(x, head, head - entries, 0);
    }

    /** list_add_tail: x becomes the last entry. */
    method AddTail(x: nat, head: nat)
      requires Valid() && entries <= head < entries + |rings|
      requires x < entries && Loose(rings, x)
      modifies this`rings, prev, next
      ensures Valid()
      ensures rings == old(rings)[head - entries := old(rings[head - entries]) + [x]]
    {
      ghost var r := head - entries;
      assert Linked(prev[..], next[..], Cycle(entries, rings, r));
      ghost var s := rings[r];
      assert s[..|s|] + [x] + s[|s|..] == s + [x];
      InsertAfter(x, prev[head], r, |s|);
    }

    /** __list_del and then two writes into the node itself: POISON1 and POISON2 for
        list_del, the node's own address for list_del_init. */
    method Unhook(x: nat, newPrev: int, newNext: int, ghost r: nat, ghost k: nat)
      requires Valid() && r < |rings| && k < |rings[r]| && rings[r][k] == x
      modifies this`rings, prev, next
      ensures Valid()
      ensures rings == old(rings)[r := old(rings[r])[..k] + old(rings[r])[k + 1..]]
      ensures prev[x] == newPrev && next[x] == newNext
    {
      ghost var p, n := prev[..], next[..];
      Neighbours(p, n, Cycle(entries, rings, r), k + 1);
      var a, b := prev[x], next[x];
      next[a] := b;
      prev[b] := a;
      prev[x] := newPrev;
      next[x] := newNext;
      CutStaysWired(p, n, prev[..], next[..], entries, rings, r, k, a, b);
      CutIsSeparate(rings, entries, r, k);
      rings := Cut(rings, r, k);
    }

    /** list_del */
    method Del(x: nat, ghost r: nat, ghost k: nat)
      requires Valid() && r < |rings| && k < |rings[r]| && rings[r][k] == x
      modifies this`rings, prev, next
      ensures Valid()
      ensures rings == old(rings)[r := old(rings[r])[..k] + old(rings[r])[k + 1..]]
      ensures prev[x] == POISON1 && next[x] == POISON2
    {
      Unhook(x, POISON1, POISON2, r, k);
    }

    /** list_del_init */
    method DelInit(x: nat, ghost r: nat, ghost k: nat)
      requires Valid() && r < |rings| && k < |rings[r]| && rings[r][k] == x
      modifies this`rings, prev, next
      ensures Valid()
      ensures rings == old(rings)[r := old(rings[r])[..k] + old(rings[r])[k + 1..]]
      ensures prev[x] == x && next[x] == x
    {
      Unhook(x, x, x, r, k);
    }

    /** list_empty; a ring is empty exactly when its head points at itself. */
    method IsEmpty(head: nat) returns (empty: bool)
      requires Valid() && entries <= head < entries + |rings|
      ensures empty <==> rings[head - entries] == []
    {
      ghost var c := Cycle(entries, rings, head - entries);
      assert Linked(prev[..], next[..], c);
      if rings[head - entries] != [] {
        assert next[c[0]] == c[1];
      }
      empty := next[head] == head;
    }

    /** head->next of a non-empty ring. */
    method First(head: nat) returns (x: nat)
      requires Valid() && entries <= head < entries + |rings| && rings[head - entries] != []
      ensures x == rings[head - entries][0]
    {
      ghost var c := Cycle(entries, rings, head - entries);
      assert Linked(prev[..], next[..], c);
      assert next[c[0]] == c[1];
      x := next[head];
    }
  }
}

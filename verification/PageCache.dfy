/** The page cache of kernel/vfs/vfscache.c: a hash table and a list in order of use that must agree. */
module PageCache {
  import opened Wrappers
  import opened Bits
  import opened Sequences

  const P_DIRTY: nat := 1

  /** A cached page: its block number, the inode of its mapping, and its state. */
  datatype VfsPage = VfsPage(location: nat, inode: nat, state: nat)

  /** __intHash for a table of 2^w lists */
  function Hash(key: nat, w: nat): nat {
    And(key, Size(w) - 1)
  }

  lemma HashInTable(key: nat, w: nat)
    ensures Hash(key, w) == key % Size(w) && Hash(key, w) < Size(w)
  {
    MaskIsRemainder(key, w);
  }

  /** The pages of q that hash to h, in the order of q. */
  function InBucket(page: seq<VfsPage>, w: nat, q: seq<nat>, h: nat): seq<nat> {
    if q == [] then []
    else if q[0] < |page| && Hash(page[q[0]].location, w) == h then [q[0]] + InBucket(page, w, q[1..], h)
    else InBucket(page, w, q[1..], h)
  }

  /** A linear search for a block of an inode. */
  function Search(page: seq<VfsPage>, q: seq<nat>, location: nat, inode: nat): (r: Option<nat>)
    ensures r.Some? ==> r.value in q && r.value < |page|
    ensures r.Some? ==> page[r.value].location == location && page[r.value].inode == inode
    ensures r.None? ==> forall x :: x in q && x < |page| ==> page[x].location != location || page[x].inode != inode
  {
    if q == [] then None
    else if q[0] < |page| && page[q[0]].location == location && page[q[0]].inode == inode then Some(q[0])
    else Search(page, q[1..], location, inode)
  }

  /** Searching the one bucket finds what searching everything finds. */
  lemma {:induction false} BucketSearch(page: seq<VfsPage>, w: nat, q: seq<nat>, location: nat, inode: nat)
    ensures Search(page, InBucket(page, w, q, Hash(location, w)), location, inode) == Search(page, q, location, inode)
  {
    if q == [] {
    } else {
      BucketSearch(page, w, q[1..], location, inode);
    }
  }

  lemma {:induction false} BucketWithout(page: seq<VfsPage>, w: nat, q: seq<nat>, h: nat, x: nat)
    ensures InBucket(page, w, Without(q, x), h) == Without(InBucket(page, w, q, h), x)
    ensures x in InBucket(page, w, q, h) <==> x in q && x < |page| && Hash(page[x].location, w) == h
  {
    if q == [] {
    } else {
      BucketWithout(page, w, q[1..], h, x);
    }
  }

  lemma {:induction false} BucketInRange(page: seq<VfsPage>, w: nat, q: seq<nat>, h: nat)
    ensures forall x :: x in InBucket(page, w, q, h) ==> x in q && x < |page|
  {
    if q == [] {
    } else {
      BucketInRange(page, w, q[1..], h);
    }
  }

  lemma {:induction false} BucketOfMorePages(page: seq<VfsPage>, p: VfsPage, w: nat, q: seq<nat>, h: nat)
    requires forall x :: x in q ==> x < |page|
    ensures InBucket(page + [p], w, q, h) == InBucket(page, w, q, h)
  {
    if q == [] {
    } else {
      assert q[0] in q && forall x :: x in q[1..] ==> x in q;
      BucketOfMorePages(page, p, w, q[1..], h);
    }
  }

  /** What becomes of the pages written back when x leaves the cache: x follows if bit 0 of its state is set. */
  ghost predicate WrittenWhenDirty(before: seq<nat>, after: seq<nat>, state: nat, x: nat) {
    && (And(state, 1) == 1 ==> after == before + [x])
    && (And(state, 1) == 0 ==> after == before)
    && (state == 1 ==> after == before + [x])
    && (state == 0 ==> after == before)
  }

  /** The test of bit 0. */
  lemma DirtyBit(state: nat)
    ensures And(state, P_DIRTY) == state % 2
  {
    assert And(state / 2, 0) == 0;
  }

  lemma {:induction false} WithoutLast(q: seq<nat>)
    requires q != [] && NoDup(q)
    ensures Without(q, q[|q| - 1]) == q[..|q| - 1]
  {
    if |q| <= 1 {
    } else {
      WithoutLast(q[1..]);
      assert q[1..][|q| - 2] == q[|q| - 1];
      NoDupIndices(q, 0, |q| - 1);
      assert q[..|q| - 1] == [q[0]] + q[1..][..|q| - 2];
    }
  }

  lemma {:induction false} WithoutLength(q: seq<nat>, x: nat)
    requires NoDup(q) && x in q
    ensures |Without(q, x)| == |q| - 1
  {
    if q[0] == x {
    } else {
      WithoutLength(q[1..], x);
    }
  }

  /** The last page of the list leaves its own bucket and no other. */
  lemma LastLeaves(page: seq<VfsPage>, w: nat, q: seq<nat>, h: nat, x: nat)
    requires q != [] && NoDup(q) && x == q[|q| - 1] && x < |page|
    ensures InBucket(page, w, q[..|q| - 1], h) ==
      if h == Hash(page[x].location, w) then Without(InBucket(page, w, q, h), x) else InBucket(page, w, q, h)
  {
    WithoutLast(q);
    BucketWithout(page, w, q, h, x);
  }

  class PageCache {
    const w: nat               // c_tablesize is 2^w
    const capacity: nat
    var page: seq<VfsPage>     // the page structures, in the order of their creation
    const hashtable: array<seq<nat>>
    var lru: seq<nat>          // most recently used first
    var size: nat
    ghost var written: seq<nat>    // pages written back so far

    ghost predicate Valid()
      reads this, hashtable
    {
      && capacity > 0 && size == |lru| <= capacity && NoDup(lru)
      && (forall x :: x in lru ==> x < |page|)
      && hashtable.Length == Size(w)
      && forall h :: 0 <= h < Size(w) ==> hashtable[h] == InBucket(page, w, lru, h)
    }

    /** cache_init */
    constructor (w: nat, capacity: nat)
      requires capacity > 0
      ensures Valid() && lru == [] && fresh(hashtable) && this.w == w && this.capacity == capacity
    {
      this.w := w;
      this.capacity := capacity;
      page, lru, size, written := [], [], 0, [];
      hashtable := new seq<nat>[Size(w)](_ => []);
    }

    /** pcache_look_up: the same answer as a search of everything, and the page found becomes the most recent. */
    method LookUp(location: nat, inode: nat) returns (r: Option<nat>)
      requires Valid()
      modifies this`lru, hashtable
      ensures Valid() && r == Search(page, old(lru), location, inode)
      ensures lru == if r.Some? then [r.value] + Without(old(lru), r.value) else old(lru)
    {
      HashInTable(location, w);
      BucketSearch(page, w, lru, location, inode);
      var h := Hash(location, w);
      BucketInRange(page, w, lru, h);
      r := FindIn(hashtable[h], location, inode);
      if r.Some? {
        BucketWithout(page, w, lru, h, r.value);
        Touch(r.value, h);
      }
    }

    /** The search through one bucket. */
    method FindIn(bucket: seq<nat>, location: nat, inode: nat) returns (r: Option<nat>)
      requires forall x :: x in bucket ==> x < |page|
      ensures r == Search(page, bucket, location, inode)
    {
      var i := 0;
      while i < |bucket|
        invariant 0 <= i <= |bucket|
        invariant Search(page, bucket, location, inode) == Search(page, bucket[i..], location, inode)
      {
        assert bucket[i] in bucket;
        if page[bucket[i]].location == location && page[bucket[i]].inode == inode {
          return Some(bucket[i]);
        }
        i := i + 1;
      }
      r := None;
    }

    /** A page moves to the head of its bucket and of the list in order of use. */
    method Touch(x: nat, h: nat)
      requires Valid() && x in lru && h == Hash(page[x].location, w) && h < Size(w)
      modifies this`lru, hashtable
      ensures Valid() && lru == [x] + Without(old(lru), x)
    {
      hashtable[h] := [x] + Without(hashtable[h], x);
      WithoutNoDup(lru, x);
      PrependNoDup(Without(lru, x), x);
      WithoutLength(lru, x);
      forall k | 0 <= k < Size(w) ensures hashtable[k] == InBucket(page, w, [x] + Without(lru, x), k) {
        BucketWithout(page, w, lru, k, x);
        assert ([x] + Without(lru, x))[1..] == Without(lru, x);
      }
      lru := [x] + Without(lru, x);
    }

    /** pcache_add for a page structure just made: on a full cache the least recently used page goes first. */
    method Add(p: VfsPage) returns (x: nat)
      requires Valid()
      modifies this, hashtable
      ensures Valid() && x == |old(page)| && page == old(page) + [p]
      ensures lru == [x] + if |old(lru)| == capacity then old(lru)[..capacity - 1] else old(lru)
      ensures |old(lru)| < capacity ==> written == old(written)
      ensures |old(lru)| == capacity ==> var last := old(lru)[capacity - 1];
        last < |old(page)| && WrittenWhenDirty(old(written), written, old(page)[last].state, last)
    {
      x := |page|;
      if size == capacity {
        PutLRU();
      }
      Insert(p);
    }

    /** The insertion itself. */
    method Insert(p: VfsPage)
      requires Valid() && size < capacity
      modifies this`page, this`lru, this`size, hashtable
      ensures Valid() && page == old(page) + [p] && lru == [|old(page)|] + old(lru)
    {
      var x := |page|;
      var h := Hash(p.location, w);
      HashInTable(p.location, w);
      forall k | 0 <= k < Size(w)
        ensures InBucket(page + [p], w, [x] + lru, k) == if k == h then [x] + hashtable[k] else hashtable[k]
      {
        BucketOfMorePages(page, p, w, lru, k);
        assert ([x] + lru)[1..] == lru;
      }
      PrependNoDup(lru, x);
      page := page + [p];
      hashtable[h] := [x] + hashtable[h];
      lru := [x] + lru;
      size := size + 1;
    }

    /** pcache_put_LRU: the last page of the list leaves it and its bucket, written back first if it is dirty. */
    method PutLRU()
      requires Valid() && size > 0
      modifies this`lru, this`size, this`written, hashtable
      ensures Valid() && lru == old(lru)[..|old(lru)| - 1] && size == old(size) - 1
      ensures var x := old(lru)[|old(lru)| - 1]; x < |page| && WrittenWhenDirty(old(written), written, page[x].state, x)
    {
      var x := lru[|lru| - 1];
      assert x in lru;
      DirtyBit(page[x].state);
      if And(page[x].state, P_DIRTY) != 0 {
        written := written + [x];
      }
      var h := Hash(page[x].location, w);
      HashInTable(page[x].location, w);
      forall k | 0 <= k < Size(w)
        ensures InBucket(page, w, lru[..|lru| - 1], k) == if k == h then Without(hashtable[k], x) else hashtable[k]
      {
        LastLeaves(page, w, lru, k, x);
      }
      WithoutLast(lru);
      WithoutNoDup(lru, x);
      hashtable[h] := Without(hashtable[h], x);
      lru := lru[..|lru| - 1];
      size := size - 1;
    }
  }

  /** A page is in the bucket of its location and in no other, once. */
  lemma InOneBucket(page: seq<VfsPage>, w: nat, q: seq<nat>, x: nat, h: nat)
    requires NoDup(q) && x in q && x < |page|
    ensures x in InBucket(page, w, q, h) <==> h == Hash(page[x].location, w)
    ensures NoDup(InBucket(page, w, q, h))
  {
    BucketWithout(page, w, q, h, x);
    BucketNoDup(page, w, q, h);
  }

  lemma {:induction false} BucketNoDup(page: seq<VfsPage>, w: nat, q: seq<nat>, h: nat)
    requires NoDup(q)
    ensures NoDup(InBucket(page, w, q, h))
  {
    if q == [] {
    } else {
      BucketNoDup(page, w, q[1..], h);
      BucketWithout(page, w, q[1..], h, q[0]);
      PrependNoDup(InBucket(page, w, q[1..], h), q[0]);
    }
  }
}

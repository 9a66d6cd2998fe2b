/** Cluster chains in the file allocation table. A table has an entry for each of the clusters
    0 .. total + 1; data clusters start at 2. */
module Chain {
  import opened FatTable

  /** The end mark that fs_alloc writes. */
  const END_MARK: nat := 0xffff_ffff

  function Next(fat: seq<nat>, c: nat): nat
    requires c < |fat|
  {
    fat[c] % LOW28
  }

  /** The table after fs_modify_fat(c, v). */
  function Set(fat: seq<nat>, c: nat, v: nat): seq<nat>
    requires c < |fat|
  {
    fat[c := WithLow28(fat[c], v)]
  }

  lemma SetTwice(fat: seq<nat>, c: nat, v: nat)
    requires c < |fat|
    ensures Set(Set(fat, c, v), c, v) == Set(fat, c, v)
  {
    var r := WithLow28(fat[c], v);
    assert WithLow28(r, v) == r / LOW28 * LOW28 + v % LOW28;
  }

  /** What an end mark looks like in the table: the low 28 bits set, the top four as they were. */
  lemma MarkIs(fat: seq<nat>, c: nat)
    requires c < |fat|
    ensures Set(fat, c, END_MARK)[c] % 0x1000_0000 == 0xfff_ffff
    ensures Set(fat, c, END_MARK)[c] / 0x1000_0000 == fat[c] / 0x1000_0000
    ensures forall d :: 0 <= d < |fat| && d != c ==> Set(fat, c, END_MARK)[d] == fat[d]
  {
  }

  predicate InData(fat: seq<nat>, c: nat) {
    2 <= c < |fat|
  }

  /** The entry of ch[i] leads to ch[i + 1]. */
  predicate Linked(fat: seq<nat>, ch: seq<nat>, i: nat)
    requires i + 1 < |ch| && ch[i] < |fat|
  {
    Next(fat, ch[i]) == ch[i + 1]
  }

  /** ch leads from its first cluster by the table's entries to an entry past the last cluster. */
  ghost predicate IsChain(fat: seq<nat>, ch: seq<nat>) {
    && ch != []
    && (forall i :: 0 <= i < |ch| ==> InData(fat, ch[i]))
    && (forall i {:trigger Linked(fat, ch, i)} :: 0 <= i < |ch| - 1 ==> Linked(fat, ch, i))
    && Next(fat, ch[|ch| - 1]) >= |fat|
  }

  /** A chain that ends meets no cluster twice. */
  lemma {:induction false} ChainIsAcyclic(fat: seq<nat>, ch: seq<nat>, i: nat, j: nat)
    requires IsChain(fat, ch) && i < j < |ch|
    ensures ch[i] != ch[j]
    decreases |ch| - j
  {
    assert Linked(fat, ch, i);
    if j + 1 == |ch| {
    } else {
      assert Linked(fat, ch, j);
      ChainIsAcyclic(fat, ch, i + 1, j + 1);
    }
  }

  /** A chain depends on the entries of its own clusters only. */
  lemma ChainFrame(fat: seq<nat>, fat': seq<nat>, ch: seq<nat>)
    requires IsChain(fat, ch) && |fat'| == |fat|
    requires forall i :: 0 <= i < |ch| ==> fat'[ch[i]] == fat[ch[i]]
    ensures IsChain(fat', ch)
  {
    forall i | 0 <= i < |ch| - 1 ensures Linked(fat', ch, i) {
      assert Linked(fat, ch, i);
    }
  }

  /** Only the last cluster carries an end mark. */
  lemma LastIsMarked(fat: seq<nat>, ch: seq<nat>, i: nat)
    requires IsChain(fat, ch) && i < |ch|
    ensures i + 1 < |ch| ==> Next(fat, ch[i]) == ch[i + 1]
    ensures i + 1 < |ch| <==> Next(fat, ch[i]) < |fat|
    ensures InData(fat, ch[i]) && Next(fat, ch[i]) != 0
  {
    if i + 1 < |ch| {
      assert Linked(fat, ch, i) && InData(fat, ch[i + 1]);
    }
  }

  /** Two chains with a cluster in common run together from there on. */
  lemma {:induction false} ChainsMerge(fat: seq<nat>, a: seq<nat>, b: seq<nat>, i: nat, j: nat)
    requires IsChain(fat, a) && IsChain(fat, b) && i < |a| && j < |b| && a[i] == b[j]
    ensures a[i..] == b[j..]
    decreases |a| - i
  {
    LastIsMarked(fat, a, i);
    LastIsMarked(fat, b, j);
    if i + 1 == |a| {
    } else {
      ChainsMerge(fat, a, b, i + 1, j + 1);
      assert a[i..] == [a[i]] + a[i + 1..] && b[j..] == [b[j]] + b[j + 1..];
    }
  }

  /** A fresh cluster with an end mark, linked behind the last one. */
  lemma Appended(fat: seq<nat>, ch: seq<nat>, c: nat, fat': seq<nat>)
    requires IsChain(fat, ch) && InData(fat, c) && c !in ch
    requires Next(fat, c) >= |fat| && |fat| <= LOW28
    requires fat' == Set(fat, ch[|ch| - 1], c)
    ensures IsChain(fat', ch + [c])
  {
    var d := ch + [c];
    forall i | 0 <= i < |d| - 1 ensures Linked(fat', d, i) {
      if i < |ch| - 1 {
        assert Linked(fat, ch, i);
        ChainIsAcyclic(fat, ch, i, |ch| - 1);
      }
    }
  }

  /** How many entries are not zero. */
  function NonZero(fat: seq<nat>): nat {
    if fat == [] then 0 else NonZero(fat[..|fat| - 1]) + if fat[|fat| - 1] % LOW28 != 0 then 1 else 0
  }

  lemma {:induction false} NonZeroAfter(fat: seq<nat>, c: nat, v: nat)
    requires c < |fat| && v % LOW28 == 0
    ensures NonZero(fat[c := v]) == NonZero(fat) - if fat[c] % LOW28 != 0 then 1 else 0
  {
    var m := |fat| - 1;
    if c < m {
      assert fat[c := v][..m] == fat[..m][c := v];
      NonZeroAfter(fat[..m], c, v);
    } else {
      assert fat[c := v][..m] == fat[..m];
    }
  }

  /** What fs_rm's loop makes of the table, starting at cluster c: it stops on every table, cyclic ones
      included, because each entry it leaves non-zero it clears. */
  ghost function Released(fat: seq<nat>, c: nat): (r: seq<nat>)
    ensures |r| == |fat|
    ensures forall k :: 0 <= k < |fat| ==> r[k] == fat[k] || r[k] == WithLow28(fat[k], 0)
    decreases NonZero(fat), if 0 < c < |fat| then 1 else 0
  {
    if c == 0 || c >= |fat| then fat
    else
      NonZeroAfter(fat, c, WithLow28(fat[c], 0));
      Released(Set(fat, c, 0), Next(fat, c))
  }

  /** On the way from fat0 to the table released: each entry has its first or its last value. */
  ghost predicate PartlyReleased(fat0: seq<nat>, fat: seq<nat>, released: seq<nat>) {
    |fat0| == |fat| == |released| && forall k :: 0 <= k < |fat| ==> fat[k] == fat0[k] || fat[k] == released[k]
  }

  /** One more entry cleared is one more with its last value. */
  lemma ReleasedFurther(fat0: seq<nat>, fat: seq<nat>, c: nat)
    requires 0 < c < |fat| && PartlyReleased(fat0, fat, Released(fat, c))
    ensures Released(Set(fat, c, 0), Next(fat, c)) == Released(fat, c)
    ensures PartlyReleased(fat0, Set(fat, c, 0), Released(fat, c))
  {
    NonZeroAfter(fat, c, WithLow28(fat[c], 0));
    assert Released(Set(fat, c, 0), Next(fat, c))[c] == Set(fat, c, 0)[c];
  }

  /** On a well-formed chain exactly its clusters become free. */
  lemma {:induction false} ReleasedChain(fat: seq<nat>, ch: seq<nat>, fat0: seq<nat>, done: nat)
    requires IsChain(fat0, ch) && done < |ch| && |fat| == |fat0|
    requires forall k :: 0 <= k < |fat0| ==> fat[k] == if k in ch[..done] then WithLow28(fat0[k], 0) else fat0[k]
    ensures forall k :: 0 <= k < |fat0| ==>
      Released(fat, ch[done])[k] == if k in ch then WithLow28(fat0[k], 0) else fat0[k]
    decreases |ch| - done
  {
    var c := ch[done];
    forall i | 0 <= i < done ensures ch[i] != c {
      ChainIsAcyclic(fat0, ch, i, done);
    }
    var fat' := Set(fat, c, 0);
    assert ch[..done + 1] == ch[..done] + [c];
    assert fat[c] == fat0[c];
    if done + 1 < |ch| {
      assert Linked(fat0, ch, done);
      ReleasedChain(fat', ch, fat0, done + 1);
    } else {
      assert ch[..done + 1] == ch;
      assert Released(fat, c) == Released(fat', Next(fat, c)) == fat';
    }
  }

  /** fs_rm frees exactly the clusters of the removed file. */
  lemma RmFreesExactlyTheChain(fat: seq<nat>, ch: seq<nat>)
    requires IsChain(fat, ch)
    ensures forall k :: 0 <= k < |fat| ==> Released(fat, ch[0])[k] == if k in ch then WithLow28(fat[k], 0) else fat[k]
  {
    ReleasedChain(fat, ch, fat, 0);
  }

  /** The chains of the files left stay what they are. */
  lemma RmKeepsOtherChains(fat: seq<nat>, ch: seq<nat>, other: seq<nat>)
    requires IsChain(fat, ch) && IsChain(fat, other) && forall i :: 0 <= i < |other| ==> other[i] !in ch
    ensures IsChain(Released(fat, ch[0]), other)
  {
    RmFreesExactlyTheChain(fat, ch);
    ChainFrame(fat, Released(fat, ch[0]), other);
  }
}

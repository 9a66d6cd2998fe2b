/** Lists of numbers without repetitions. */
module Sequences {

  /** list_del: q without x. */
  function Without(q: seq<nat>, x: nat): (r: seq<nat>)
    ensures forall y :: y in r <==> y in q && y != x
    ensures x !in q ==> r == q
  {
    if q == [] then [] else if q[0] == x then Without(q[1..], x) else [q[0]] + Without(q[1..], x)
  }

  /** No element occurs twice. */
  predicate NoDup(q: seq<nat>) {
    q == [] || (q[0] !in q[1..] && NoDup(q[1..]))
  }

  lemma {:induction false} WithoutNoDup(q: seq<nat>, x: nat)
    requires NoDup(q)
    ensures NoDup(Without(q, x))
  {
    if q == [] {
    } else {
      WithoutNoDup(q[1..], x);
      if q[0] != x {
        var r := [q[0]] + Without(q[1..], x);
        assert r[1..] == Without(q[1..], x);
      }
    }
  }

  lemma {:induction false} AppendNoDup(q: seq<nat>, x: nat)
    requires NoDup(q) && x !in q
    ensures NoDup(q + [x])
  {
    if q == [] {
    } else {
      AppendNoDup(q[1..], x);
      assert (q + [x])[1..] == q[1..] + [x];
    }
  }

  lemma PrependNoDup(q: seq<nat>, x: nat)
    requires NoDup(q) && x !in q
    ensures NoDup([x] + q)
  {
    assert ([x] + q)[1..] == q;
  }

  lemma {:induction false} NoDupIndices(q: seq<nat>, i: nat, j: nat)
    requires NoDup(q) && i < j < |q|
    ensures q[i] != q[j]
  {
    if i == 0 {
      assert q[j] == q[1..][j - 1];
    } else {
      NoDupIndices(q[1..], i - 1, j - 1);
    }
  }

  lemma {:induction false} NoDupFromIndices(q: seq<nat>)
    requires forall i, j :: 0 <= i < j < |q| ==> q[i] != q[j]
    ensures NoDup(q)
  {
    if q == [] {
    } else {
      NoDupFromIndices(q[1..]);
    }
  }

  /** Taking x off the front of a list without repetitions. */
  lemma WithoutFirst(q: seq<nat>)
    requires q != [] && NoDup(q)
    ensures Without(q, q[0]) == q[1..]
  {
  }

  lemma {:induction false} WithoutAppended(q: seq<nat>, x: nat)
    ensures Without(q + [x], x) == Without(q, x)
  {
    if q == [] {
      assert Without([x], x) == [];
    } else {
      WithoutAppended(q[1..], x);
      assert (q + [x])[1..] == q[1..] + [x];
    }
  }

  lemma WithoutTwice(q: seq<nat>, x: nat)
    ensures Without(Without(q, x), x) == Without(q, x)
  {
  }

  /** Where x stands in q; |q| if it does not. */
  function Pos(q: seq<nat>, x: nat): (i: nat)
    ensures i <= |q| && (x in q <==> i < |q|)
    ensures i < |q| ==> q[i] == x
  {
    if q == [] || q[0] == x then 0 else 1 + Pos(q[1..], x)
  }

  lemma PosOf(q: seq<nat>, i: nat)
    requires NoDup(q) && i < |q|
    ensures Pos(q, q[i]) == i
  {
    var j := Pos(q, q[i]);
    if j < i {
      NoDupIndices(q, j, i);
    } else if i < j {
      NoDupIndices(q, i, j);
    }
  }

  lemma {:induction false} NoDupJoined(a: seq<nat>, b: seq<nat>)
    ensures NoDup(a + b) <==> NoDup(a) && NoDup(b) && forall x :: x in a ==> x !in b
  {
    if a == [] {
      assert a + b == b;
    } else {
      NoDupJoined(a[1..], b);
      assert (a + b)[1..] == a[1..] + b && (a + b)[0] == a[0];
    }
  }
}

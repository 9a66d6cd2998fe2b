/** Shifts and masks of unsigned words, as arithmetic on naturals. */
module Bits {

  /** 1 << k */
  function Size(k: nat): (s: nat)
    ensures s >= 1
  {
    if k == 0 then 1 else 2 * Size(k - 1)
  }

  /** h is a multiple of 1 << k. */
  predicate Multiple(h: nat, k: nat) {
    k == 0 || (h % 2 == 0 && Multiple(h / 2, k - 1))
  }

  /** x >> k */
  function Shr(x: nat, k: nat): nat {
    if k == 0 then x else Shr(x / 2, k - 1)
  }

  /** x & y */
  function And(x: nat, y: nat): nat {
    if x == 0 || y == 0 then 0
    else 2 * And(x / 2, y / 2) + if x % 2 == 1 && y % 2 == 1 then 1 else 0
  }

  lemma {:induction false} AndSelf(x: nat)
    ensures And(x, x) == x
  {
    if x == 0 {
    } else {
      AndSelf(x / 2);
    }
  }

  /** Masking with 2^k - 1 is the remainder of a division by 2^k. */
  lemma {:induction false} MaskIsRemainder(x: nat, k: nat)
    ensures And(x, Size(k) - 1) == x % Size(k)
  {
    if x == 0 {
      RemainderIs(0, Size(k), 0, 0);
    } else if k == 0 {
      assert Size(0) == 1;
    } else {
      MaskIsRemainder(x / 2, k - 1);
      MaskStep(x, Size(k - 1));
    }
  }

  lemma MaskStep(x: nat, s: nat)
    requires x > 0 && s > 0 && And(x / 2, s - 1) == (x / 2) % s
    ensures And(x, 2 * s - 1) == x % (2 * s)
  {
    AndOddMask(x, s);
    DivisionByDouble(x, s);
  }

  lemma AndOddMask(x: nat, s: nat)
    requires x > 0 && s > 0
    ensures And(x, 2 * s - 1) == 2 * And(x / 2, s - 1) + x % 2
  {
    assert (2 * s - 1) / 2 == s - 1;
  }

  lemma DivisionByDouble(x: nat, s: nat)
    requires s > 0
    ensures x / (2 * s) == x / 2 / s
    ensures x % (2 * s) == 2 * ((x / 2) % s) + x % 2
  {
    var y := x / 2;
    var q, r := y / s, y % s;
    assert y == s * q + r;
    DoubleProduct(s, q);
    RemainderIs(x, 2 * s, q, 2 * r + x % 2);
  }

  lemma DoubleProduct(s: nat, q: nat)
    ensures (2 * s) * q == 2 * (s * q)
  {
  }

  lemma RemainderIs(x: nat, s: nat, q: nat, r: nat)
    requires x == s * q + r && r < s
    ensures x / s == q && x % s == r
  {
    var a, b := x / s, x % s;
    assert x == s * a + b;
    if a < q {
      NextMultiple(s, a, q);
    } else if a > q {
      NextMultiple(s, q, a);
    }
  }

  lemma NextMultiple(s: nat, a: nat, q: nat)
    requires a < q
    ensures s * a + s <= s * q
  {
    assert s * q == s * (q - a - 1) + (s * a + s);
    assert s * (q - a - 1) >= 0;
  }

  /** Shifting right by k is division by 2^k. */
  lemma {:induction false} ShiftIsDivision(x: nat, k: nat)
    ensures Shr(x, k) == x / Size(k)
  {
    if k == 0 {
    } else {
      ShiftIsDivision(x / 2, k - 1);
      DivisionByDouble(x, Size(k - 1));
    }
  }

  /** A shift by j and one by k is a shift by both together. */
  lemma {:induction false} ShiftInParts(x: nat, j: nat, k: nat)
    ensures Shr(x, j + k) == Shr(Shr(x, j), k)
    decreases j
  {
    if j == 0 {
    } else {
      ShiftInParts(x / 2, j - 1, k);
    }
  }

  /** x << k */
  function Shl(x: nat, k: nat): nat
    decreases k
  {
    if k == 0 then x else Shl(2 * x, k - 1)
  }

  /** Shifting left by k is k doublings. */
  lemma {:induction false} ShiftIsProduct(x: nat, k: nat)
    ensures Shl(x, k) == x * Size(k)
    decreases k
  {
    if k == 0 {
    } else {
      ShiftIsProduct(2 * x, k - 1);
      assert 2 * x * Size(k - 1) == x * (2 * Size(k - 1));
    }
  }

  /** The logarithm of num rounded down. */
  function Log(num: nat): nat {
    if num <= 1 then 0 else 1 + Log(num / 2)
  }

  lemma {:induction false} LogBounds(num: nat)
    requires num > 0
    ensures Size(Log(num)) <= num < Size(Log(num) + 1)
  {
    if num <= 1 {
    } else {
      LogBounds(num / 2);
    }
  }

  lemma {:induction false} LogOfSize(k: nat)
    ensures Log(Size(k)) == k
  {
    if k == 0 {
    } else {
      LogOfSize(k - 1);
    }
  }

  /** fs_wa: for a power of two, the number of bits to shift by. */
  method Log2(num: nat) returns (i: nat)
    ensures i == Log(num)
    ensures num > 0 ==> Size(i) <= num < Size(i + 1)
    ensures forall k: nat :: num == Size(k) ==> i == k
  {
    var rest := num;
    i := 0;
    while rest > 1
      invariant i + Log(rest) == Log(num)
    {
      rest := rest / 2;
      i := i + 1;
    }
    if num > 0 {
      LogBounds(num);
    }
    forall k: nat | num == Size(k) ensures i == k {
      LogOfSize(k);
    }
  }

  lemma {:induction false} SizeGrows(j: nat, k: nat)
    requires j <= k
    ensures Size(j) <= Size(k)
  {
    if j == k {
    } else {
      SizeGrows(j, k - 1);
    }
  }

  /** n * m by repeated addition, for use where a product of two variables would be in the way. */
  function Times(n: nat, m: nat): nat {
    if n == 0 then 0 else Times(n - 1, m) + m
  }

  lemma {:induction false} TimesIsProduct(n: nat, m: nat)
    ensures Times(n, m) == n * m
  {
    if n == 0 {
    } else {
      TimesIsProduct(n - 1, m);
      assert n * m == (n - 1) * m + m;
    }
  }

  lemma {:induction false} TimesGrows(n: nat, k: nat, m: nat)
    requires n < k
    ensures Times(n, m) + m <= Times(k, m)
  {
    if n + 1 >= k {
    } else {
      TimesGrows(n, k - 1, m);
    }
  }
}

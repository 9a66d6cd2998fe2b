/** The block device behind kernel/fs/fat: sectors of 512 bytes, read and written in runs. */
module Device {

  type byte = b: int | 0 <= b < 256

  const SECTOR: nat := 512

  type Sector = s: seq<byte> | |s| == SECTOR witness seq(SECTOR, _ => 0)

  /** The bytes of n sectors from sector a on. */
  function Block(sec: seq<Sector>, a: nat, n: nat): (b: seq<byte>)
    requires a + n <= |sec|
    ensures |b| == SECTOR * n
    decreases n
  {
    if n == 0 then [] else sec[a] + Block(sec, a + 1, n - 1)
  }

  function Zeros(n: nat): (b: seq<byte>)
    ensures |b| == 512 * n && forall i :: 0 <= i < |b| ==> b[i] == 0
  {
    seq(SECTOR * n, _ => 0)
  }

  lemma {:induction false} BlockFrame(s: seq<Sector>, t: seq<Sector>, a: nat, n: nat)
    requires a + n <= |s| && a + n <= |t|
    requires forall i :: a <= i < a + n ==> s[i] == t[i]
    ensures Block(s, a, n) == Block(t, a, n)
    decreases n
  {
    if n == 0 {
    } else {
      BlockFrame(s, t, a + 1, n - 1);
    }
  }

  lemma {:induction false} BlockIs(s: seq<Sector>, a: nat, n: nat, data: seq<byte>)
    requires a + n <= |s| && |data| == SECTOR * n
    requires forall k :: 0 <= k < n ==> s[a + k] == data[SECTOR * k..SECTOR * k + SECTOR]
    ensures Block(s, a, n) == data
    decreases n
  {
    if n == 0 {
    } else {
      var rest := data[SECTOR..];
      forall k | 0 <= k < n - 1 ensures s[a + 1 + k] == rest[SECTOR * k..SECTOR * k + SECTOR] {
        assert s[a + (k + 1)] == data[SECTOR * (k + 1)..SECTOR * (k + 1) + SECTOR];
        SliceOfRest(data, SECTOR * k);
      }
      BlockIs(s, a + 1, n - 1, rest);
      assert s[a + 0] == data[SECTOR * 0..SECTOR * 0 + SECTOR];
      assert data == data[..SECTOR] + rest;
    }
  }

  lemma SliceOfRest(data: seq<byte>, at: nat)
    requires at + 2 * SECTOR <= |data|
    ensures data[SECTOR..][at..at + SECTOR] == data[at + SECTOR..at + SECTOR + SECTOR]
  {
  }

  class Disk {
    var sec: seq<Sector>
    ghost var errors: nat      // how many transfers have failed so far

    /** read_block; a failed read leaves the caller's buffer alone. */
    method ReadBlock(a: nat, n: nat) returns (ok: bool, data: seq<byte>)
      modifies this`errors
      ensures ok ==> a + n <= |sec| && data == Block(sec, a, n) && errors == old(errors)
      ensures !ok ==> errors == old(errors) + 1
    {
      data := [];
      ok := *;
      if !ok || |sec| < a + n {
        errors := errors + 1;
        return false, [];
      }
      data := Block(sec, a, n);
    }

    /** write_block goes sector by sector and may give up in the middle. */
    method WriteBlock(data: seq<byte>, a: nat, n: nat) returns (ok: bool)
      requires |data| == SECTOR * n
      modifies this
      ensures |sec| == old(|sec|)
      ensures forall i :: 0 <= i < |sec| && !(a <= i < a + n) ==> sec[i] == old(sec[i])
      ensures ok ==> a + n <= |sec| && Block(sec, a, n) == data && errors == old(errors)
      ensures !ok ==> errors == old(errors) + 1
    {
      for k := 0 to n
        invariant errors == old(errors)
        invariant |sec| == old(|sec|)
        invariant k == 0 || a + k <= |sec|
        invariant forall i :: 0 <= i < |sec| && !(a <= i < a + k) ==> sec[i] == old(sec[i])
        invariant forall j :: 0 <= j < k ==> sec[a + j] == data[SECTOR * j..SECTOR * j + SECTOR]
      {
        ok := *;
        if !ok || |sec| <= a + k {
          errors := errors + 1;
          return false;
        }
        sec := sec[a + k := data[SECTOR * k..SECTOR * k + SECTOR]];
      }
      ok := a + n <= |sec|;
      if ok {
        BlockIs(sec, a, n, data);
      } else {
        errors := errors + 1;
      }
    }
  }
}

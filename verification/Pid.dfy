/** kernel/pc/pid.c: the bitmap of process numbers. */
module Pid {
  import opened Queues
  import opened Steps

  /** 1 << off */
  function BitOf(off: nat): bv8
    requires off < 8
  {
    if off == 0 then 1 else if off == 1 then 2 else if off == 2 then 4 else if off == 3 then 8
    else if off == 4 then 16 else if off == 5 then 32 else if off == 6 then 64 else 128
  }

  predicate Bit(b: bv8, off: nat)
    requires off < 8
  {
    b & BitOf(off) != 0
  }

  /** Bit `off` is the lowest one after a shift by off. */
  lemma BitIs(b: bv8, off: nat)
    requires off < 8
    ensures Bit(b, off) <==> (b >> off) & 1 == 1
  {
  }

  lemma BitAfterSet(b: bv8, i: nat, j: nat)
    requires i < 8 && j < 8
    ensures Bit(b | BitOf(i), j) <==> Bit(b, j) || i == j
  {
  }

  lemma BitAfterClear(b: bv8, i: nat, j: nat)
    requires i < 8 && j < 8
    ensures Bit(b & !BitOf(i), j) <==> Bit(b, j) && i != j
  {
  }

  /** The numbers whose bits are set. */
  ghost predicate Marked(bits: seq<bv8>, p: nat) {
    |bits| == 32 && p < PID_NUM && Bit(bits[p / 8], p % 8)
  }

  class PidMap {
    const bits: array<bv8>
    var nextPid: nat          // taken modulo PID_NUM, as the search takes it

    ghost predicate Valid()
      reads this, bits
    {
      bits.Length == 32 && nextPid < PID_NUM
    }

    ghost function Used(): (s: set<nat>)
      reads this, bits
      ensures forall p: nat :: p in s <==> Marked(bits[..], p)
    {
      set p: nat | p < PID_NUM && Marked(bits[..], p)
    }

    /** init_pid: number 0 is taken. */
    constructor ()
      ensures Valid() && fresh(bits) && Used() == {IDLE_PID} && nextPid == 1
    {
      bits := new bv8[32](i => if i == 0 then 1 else 0);
      nextPid := 1;
    }

    /** pid_check */
    method Check(p: nat) returns (taken: bool)
      requires Valid()
      ensures taken <==> p in Used()
      ensures taken <==> p < 256 && (bits[p / 8] >> (p % 8)) & 1 == 1
    {
      BitIs(bits[p / 8 % 32], p % 8);
      taken := p < PID_NUM && Bit(bits[p / 8], p % 8);
    }

    /** pid_alloc */
    method Alloc() returns (ok: bool, p: nat)
      requires Valid()
      modifies this, bits
      ensures Valid() && ok == FirstFree(old(Used()), old(nextPid), PID_NUM).Some?
      ensures ok ==> p == FirstFree(old(Used()), old(nextPid), PID_NUM).value && p !in old(Used())
      ensures ok ==> Used() == old(Used()) + {p} && nextPid == (p + 1) % 256
      ensures !ok ==> Used() == old(Used()) && nextPid == old(nextPid)
    {
      p := nextPid;
      var i := 0;
      while i < PID_NUM
        invariant 0 <= i <= PID_NUM && p < PID_NUM
        invariant FirstFree(Used(), nextPid, PID_NUM) == FirstFree(Used(), p, PID_NUM - i)
      {
        if !Bit(bits[p / 8], p % 8) {
          break;
        }
        p := (p + 1) % PID_NUM;
        i := i + 1;
      }
      ok := i < PID_NUM;
      if ok {
        Set(p);
        nextPid := (p + 1) % PID_NUM;
      }
    }

    method Set(p: nat)
      requires Valid() && p < PID_NUM
      modifies bits
      ensures Valid() && Used() == old(Used()) + {p}
    {
      ghost var before := bits[..];
      bits[p / 8] := bits[p / 8] | BitOf(p % 8);
      forall q: nat | q < PID_NUM ensures Marked(bits[..], q) <==> Marked(before, q) || q == p {
        BitAfterSet(before[p / 8], p % 8, q % 8);
      }
    }

    /** pid_free */
    method Free(p: nat) returns (ok: bool)
      requires Valid()
      modifies bits
      ensures Valid() && ok == (p in old(Used())) && Used() == old(Used()) - {p}
    {
      ok := Check(p);
      if ok {
        ghost var before := bits[..];
        bits[p / 8] := bits[p / 8] & !BitOf(p % 8);
        forall q: nat | q < PID_NUM ensures Marked(bits[..], q) <==> Marked(before, q) && q != p {
          BitAfterClear(before[p / 8], p % 8, q % 8);
        }
      }
    }
  }
}

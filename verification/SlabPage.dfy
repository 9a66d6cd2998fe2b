/** One page of a slab cache in kernel/mm/myslab.c: format_slabpage and the parts of slab_alloc and slab_free
    that work inside the page. Addresses are relative to the start of the page. */
module SlabPage {
  import opened Wrappers
  import opened Bits
  import opened Sequences

  const PAGE: nat := 4096
  const HEADER: nat := 12

  /** Where the k-th slot begins. */
  function Slot(k: nat, size: nat): nat {
    HEADER + Times(k, size)
  }

  lemma {:induction false} SlotAligned(k: nat, size: nat)
    requires size % 4 == 0
    ensures Slot(k, size) % 4 == 0 && Slot(k, size) >= HEADER
  {
    if k == 0 {
    } else {
      SlotAligned(k - 1, size);
    }
  }

  lemma SlotsApart(k: nat, l: nat, size: nat)
    requires k < l
    ensures Slot(k, size) + size <= Slot(l, size)
  {
    TimesGrows(k, l, size);
  }

  /** o is one of the first n slots. */
  predicate IsSlot(o: nat, n: nat, size: nat) {
    exists k: nat :: k < n && o == Slot(k, size)
  }

  /** The first n slots are the first n - 1 and one more, which is none of those. */
  lemma OneMoreSlot(n: nat, size: nat)
    requires size > 0
    ensures forall o: nat :: IsSlot(o, n + 1, size) <==> IsSlot(o, n, size) || o == Slot(n, size)
    ensures !IsSlot(Slot(n, size), n, size)
  {
    forall o: nat ensures IsSlot(o, n + 1, size) <==> IsSlot(o, n, size) || o == Slot(n, size) {
    }
    forall k: nat | k < n ensures Slot(k, size) != Slot(n, size) {
      SlotsApart(k, n, size);
    }
  }

  /** Two different slots have no byte in common, and all of them lie before the end of the carved part. */
  lemma SlotsDoNotOverlap(o: nat, p: nat, n: nat, size: nat)
    requires IsSlot(o, n, size) && IsSlot(p, n, size) && o != p
    ensures o + size <= p || p + size <= o
    ensures HEADER <= o && o + size <= Slot(n, size)
  {
    var k: nat :| k < n && o == Slot(k, size);
    var l: nat :| l < n && p == Slot(l, size);
    SlotsApart(k, n, size);
    if k < l {
      SlotsApart(k, l, size);
    } else {
      SlotsApart(l, k, size);
    }
  }

  lemma SlotInside(o: nat, n: nat, size: nat)
    requires IsSlot(o, n, size) && size % 4 == 0
    ensures HEADER <= o && o + size <= Slot(n, size) && o % 4 == 0
  {
    var k: nat :| k < n && o == Slot(k, size);
    SlotsApart(k, n, size);
    SlotAligned(k, size);
  }

  /** What the link of the i-th free slot has to be. */
  function LinkAfter(chain: seq<nat>, i: nat): nat {
    if i + 1 < |chain| then chain[i + 1] else 0
  }

  class SlabPage {
    const mem: array<nat>      // the page, word by word
    const size: nat            // of a slot
    var endPtr: nat
    var nrObjs: nat
    var wasFull: bool
    var slabp: nat             // first free slot given back; 0 if none
    ghost var carved: nat      // slots made so far
    ghost var chain: seq<nat>  // the free slots, as slabp leads to them
    ghost var live: set<nat>   // the objects handed out

    ghost predicate Valid()
      reads this, mem
    {
      && mem.Length == PAGE / 4 && size % 4 == 0 && 8 <= size && HEADER + size <= PAGE
      && endPtr == Slot(carved, size) <= PAGE
      && (wasFull <==> carved > 0 && endPtr + size >= PAGE)
      && NoDup(chain) && slabp == (if chain == [] then 0 else chain[0])
      && (forall o :: o in live || o in chain <==> IsSlot(o, carved, size))
      && (forall o :: o in live ==> o !in chain)
      && (forall i :: 0 <= i < |chain| ==> chain[i] / 4 < PAGE / 4 && mem[chain[i] / 4] == LinkAfter(chain, i))
      && nrObjs == |live| && nrObjs + |chain| == carved
    }

    /** Word j of the object at o. */
    function At(o: nat, j: nat): nat
      reads mem
    {
      if o / 4 + j < mem.Length then mem[o / 4 + j] else 0
    }

    /** Two words of objects in use are the same place only when they are the same word of the same object. */
    lemma WordsApart(o: nat, i: nat, p: nat, j: nat)
      requires Valid() && IsSlot(o, carved, size) && IsSlot(p, carved, size)
      requires 4 * i + 4 <= size && 4 * j + 4 <= size && (o != p || i != j)
      ensures o / 4 + i < PAGE / 4 && p / 4 + j < PAGE / 4 && o / 4 + i != p / 4 + j
    {
      SlotInside(o, carved, size);
      SlotInside(p, carved, size);
      if o != p {
        SlotsDoNotOverlap(o, p, carved, size);
      }
    }

    /** format_slabpage */
    constructor (size: nat)
      requires size % 4 == 0 && 8 <= size && HEADER + size <= PAGE
      ensures Valid() && live == {} && chain == [] && fresh(mem) && mem.Length == 1024 && this.size == size
      ensures endPtr == 12 && nrObjs == 0 && !wasFull && slabp == 0
    {
      mem := new nat[PAGE / 4](_ => 0);
      this.size := size;
      endPtr, nrObjs, wasFull, slabp := HEADER, 0, false, 0;
      carved, chain, live := 0, [], {};
    }

    /** slab_alloc inside the page; None stands for the way to another page. */
    method Alloc() returns (r: Option<nat>)
      requires Valid()
      modifies this
      ensures Valid()
      ensures r.None? <==> old(chain) == [] && old(wasFull)
      ensures r.None? ==> live == old(live)
      ensures r.Some? ==> r.value !in old(live) && live == old(live) + {r.value}
      ensures r.Some? ==> 12 <= r.value && r.value + size <= 4096
      ensures r.Some? ==> forall o :: o in old(live) ==> o + size <= r.value || r.value + size <= o
    {
      FreeSlotsAreNotNull();
      var x: nat;
      if slabp != 0 {
        x := TakeFree();
      } else if !wasFull {
        x := Carve();
      } else {
        return None;
      }
      SlotInside(x, carved, size);
      forall o | o in old(live) ensures o + size <= x || x + size <= o {
        SlotsDoNotOverlap(o, x, carved, size);
      }
      r := Some(x);
    }

    lemma FreeSlotsAreNotNull()
      requires Valid()
      ensures slabp == 0 <==> chain == []
    {
      if chain != [] {
        assert chain[0] in chain;
        SlotInside(chain[0], carved, size);
      }
    }

    /** The head of the free chain. */
    method TakeFree() returns (o: nat)
      requires Valid() && slabp != 0
      modifies this`slabp, this`nrObjs, this`chain, this`live
      ensures Valid() && o in old(chain) && chain == old(chain)[1..] && live == old(live) + {o} && o !in old(live)
      ensures o == old(slabp) && slabp == old(At(slabp, 0)) && nrObjs == old(nrObjs) + 1
    {
      o := slabp;
      assert o in chain;
      assert forall i :: 0 <= i < |chain| - 1 ==>
        LinkAfter(chain[1..], i) == LinkAfter(chain, i + 1) && chain[1..][i] == chain[i + 1];
      slabp := mem[slabp / 4];
      nrObjs := nrObjs + 1;
      chain, live := chain[1..], live + {o};
    }

    /** The next part of the page that was never used. */
    method Carve() returns (o: nat)
      requires Valid() && slabp == 0 && !wasFull
      modifies this`endPtr, this`nrObjs, this`wasFull, this`carved, this`live
      ensures Valid() && o == old(endPtr) && endPtr == o + size && (wasFull <==> endPtr + size >= 4096)
      ensures carved == old(carved) + 1 && live == old(live) + {o} && o !in old(live) && nrObjs == old(nrObjs) + 1
    {
      FreeSlotsAreNotNull();
      OneMoreSlot(carved, size);
      o := endPtr;
      endPtr := o + size;
      nrObjs := nrObjs + 1;
      if endPtr + size >= PAGE {
        wasFull := true;
      }
      carved, live := carved + 1, live + {o};
    }

    /** slab_free inside the page, for an object that is in use. */
    method Free(o: nat)
      requires Valid() && o in live
      modifies this`slabp, this`nrObjs, this`chain, this`live, mem
      ensures Valid() && live == old(live) - {o} && chain == [o] + old(chain) && carved == old(carved)
      ensures slabp == o && mem[o / 4] == old(slabp) && nrObjs == old(nrObjs) - 1
      ensures forall p: nat, j: nat :: p in live && 4 * j + 4 <= size ==> At(p, j) == old(At(p, j))
    {
      SlotInside(o, carved, size);
      forall i | 0 <= i < |chain| ensures chain[i] / 4 != o / 4 {
        assert chain[i] in chain;
        SlotsDoNotOverlap(o, chain[i], carved, size);
        SlotInside(chain[i], carved, size);
      }
      PrependNoDup(chain, o);
      assert forall i :: 0 <= i < |chain| ==> LinkAfter([o] + chain, i + 1) == LinkAfter(chain, i);
      mem[o / 4] := slabp;
      slabp := o;
      nrObjs := nrObjs - 1;
      chain, live := [o] + chain, live - {o};
      forall p: nat, j: nat | p in live && 4 * j + 4 <= size ensures At(p, j) == old(At(p, j)) {
        WordsApart(o, 0, p, j);
      }
    }

    /** The owner of an object writes into it: the page is none the worse for it. */
    method Write(o: nat, i: nat, v: nat)
      requires Valid() && o in live && 4 * i + 4 <= size
      modifies mem
      ensures Valid()
      ensures At(o, i) == v
      ensures forall p: nat, j: nat :: p in live && 4 * j + 4 <= size && (p != o || j != i) ==>
        At(p, j) == old(At(p, j))
    {
      SlotInside(o, carved, size);
      forall k | 0 <= k < |chain| ensures chain[k] / 4 != o / 4 + i {
        assert chain[k] in chain;
        SlotsDoNotOverlap(o, chain[k], carved, size);
        SlotInside(chain[k], carved, size);
      }
      mem[o / 4 + i] := v;
      forall p: nat, j: nat | p in live && 4 * j + 4 <= size && (p != o || j != i) ensures At(p, j) == old(At(p, j)) {
        WordsApart(o, i, p, j);
      }
    }
  }
}

/** What becomes of the frames when a page table is removed: pgd_delete of kernel/vm/vm.c hands addresses to kfree of
    kernel/mm/myslab.c, and kfree hands blocks to the buddy system. */
module Teardown {
  import opened Bits
  import opened Sequences
  import opened Partition
  import opened Buddy
  import PageTable

  const KERNEL_ENTRY: nat := 0x8000_0000

  /** a & ~KERNEL_ENTRY, for a 32-bit word */
  function Physical(a: nat): nat {
    a % KERNEL_ENTRY
  }

  /** Stripping the top bit is keeping the other 31. */
  lemma PhysicalIs(a: nat)
    ensures Physical(a) == And(a, 0x7fff_ffff)
  {
    assert Size(8) == 0x100;
    assert Size(16) == 0x1_0000;
    assert Size(24) == 0x100_0000;
    assert Size(31) == 0x8000_0000;
    MaskIsRemainder(a, 31);
  }

  /** The frame that kfree takes an address to lie in. */
  function FrameOf(a: nat): nat {
    Shr(Physical(a), 12)
  }

  /** The frame that an address lies in is of a slab cache. */
  predicate InSlab(flag: seq<Flag>, start: nat, a: nat) {
    start <= FrameOf(a) < start + |flag| && flag[FrameOf(a) - start] == Slab
  }

  /** The address lies in the first frame of an allocated block, and that is no slab page. */
  ghost predicate OwnsBlock(cut: Cut, flag: seq<Flag>, start: nat, a: nat) {
    && start <= FrameOf(a) < start + |cut| && cut[FrameOf(a) - start].head == FrameOf(a) - start
    && !cut[FrameOf(a) - start].free && !InSlab(flag, start, a)
  }

  predicate FramesApart(addrs: seq<nat>, i: nat, j: nat)
    requires i < |addrs| && j < |addrs|
  {
    FrameOf(addrs[i]) != FrameOf(addrs[j])
  }

  ghost predicate AllOwn(cut: Cut, flag: seq<Flag>, start: nat, addrs: seq<nat>) {
    forall i {:trigger addrs[i]} :: 0 <= i < |addrs| ==> OwnsBlock(cut, flag, start, addrs[i])
  }

  /** Each address is that of an allocated block, and no two are of the same block. */
  ghost predicate Freeable(cut: Cut, flag: seq<Flag>, start: nat, addrs: seq<nat>) {
    && AllOwn(cut, flag, start, addrs)
    && (forall i, j {:trigger FramesApart(addrs, i, j)} :: 0 <= i < j < |addrs| ==> FramesApart(addrs, i, j))
  }

  /** The frames of those blocks. */
  ghost function Blocks(cut: Cut, flag: seq<Flag>, start: nat, addrs: seq<nat>): set<nat>
    requires AllOwn(cut, flag, start, addrs)
  {
    if addrs == [] then {}
    else BlockOf(cut, flag, start, addrs[0]) + Blocks(cut, flag, start, addrs[1..])
  }

  ghost function BlockOf(cut: Cut, flag: seq<Flag>, start: nat, a: nat): set<nat>
    requires OwnsBlock(cut, flag, start, a)
  {
    Run(FrameOf(a) - start, cut[FrameOf(a) - start].order)
  }

  /** kfree: an address in a slab page goes to the slab system, in whose hands it is then; any other is taken to be
      that of a block, with the order that its frame's descriptor shows. */
  method Kfree(sys: BuddySystem, a: nat) returns (slab: bool)
    requires sys.Valid() && (InSlab(sys.flag[..], sys.startPfn, a) || OwnsBlock(sys.cut, sys.flag[..], sys.startPfn, a))
    modifies sys`cut, sys.flag, sys.level, sys.nrFree, sys.lists`rings, sys.lists.prev, sys.lists.next
    ensures sys.Valid() && slab == old(InSlab(sys.flag[..], sys.startPfn, a))
    ensures slab ==>
      sys.cut == old(sys.cut) && sys.flag[..] == old(sys.flag[..]) && sys.lists.rings == old(sys.lists.rings)
    ensures !slab ==> FreeFrames(sys.cut) == old(FreeFrames(sys.cut) + BlockOf(sys.cut, sys.flag[..], sys.startPfn, a))
    ensures !slab ==> OthersHeld(old(sys.cut), old(sys.flag[..]), sys.cut, sys.flag[..], FrameOf(a) - sys.startPfn)
  {
    var frame := FrameOf(a) - sys.startPfn;
    slab := sys.flag[frame] == Slab;
    if !slab {
      sys.FreeAddress(Physical(a), sys.level[frame]);
    }
  }

  /** The allocated blocks other than the one at frame x are still allocated, with the flags they had. */
  ghost predicate OthersHeld(cut: Cut, flag: seq<Flag>, cut': Cut, flag': seq<Flag>, x: int) {
    && |cut'| == |cut| == |flag| == |flag'| && x >= 0 && SameAllocated(cut', |cut|, cut, x)
    && forall h: nat, k: nat :: Heads(cut', h, k, false) ==> flag'[h] == flag[h]
  }

  /** Freeing the first leaves the others what they are. */
  lemma OthersStay(cut: Cut, flag: seq<Flag>, cut': Cut, flag': seq<Flag>, start: nat, addrs: seq<nat>)
    requires addrs != [] && Freeable(cut, flag, start, addrs)
    requires OthersHeld(cut, flag, cut', flag', FrameOf(addrs[0]) - start)
    ensures Freeable(cut', flag', start, addrs[1..])
    ensures Blocks(cut', flag', start, addrs[1..]) == Blocks(cut, flag, start, addrs[1..])
  {
    var rest := addrs[1..];
    forall i | 0 <= i < |rest|
      ensures OwnsBlock(cut, flag, start, rest[i]) && OwnsBlock(cut', flag', start, rest[i])
      ensures cut'[FrameOf(rest[i]) - start] == cut[FrameOf(rest[i]) - start]
    {
      assert addrs[i + 1] == rest[i] && FramesApart(addrs, 0, i + 1);
      var h := FrameOf(rest[i]) - start;
      assert Heads(cut, h, cut[h].order, false);
      assert Heads(cut', h, cut[h].order, false);
    }
    forall i, j | 0 <= i < j < |rest| ensures FramesApart(rest, i, j) {
      assert FramesApart(addrs, i + 1, j + 1);
    }
    SameBlocks(cut, flag, cut', flag', start, rest);
  }

  lemma {:induction false} SameBlocks(cut: Cut, flag: seq<Flag>, cut': Cut, flag': seq<Flag>, start: nat,
                                      addrs: seq<nat>)
    requires AllOwn(cut, flag, start, addrs) && AllOwn(cut', flag', start, addrs)
    requires forall i {:trigger addrs[i]} :: 0 <= i < |addrs| ==>
      cut'[FrameOf(addrs[i]) - start] == cut[FrameOf(addrs[i]) - start]
    ensures Blocks(cut', flag', start, addrs) == Blocks(cut, flag, start, addrs)
  {
    if addrs == [] {
    } else {
      SameBlocks(cut, flag, cut', flag', start, addrs[1..]);
    }
  }

  /** kfree for one address after the other: all those blocks are free, and nothing else. */
  method FreeAll(sys: BuddySystem, addrs: seq<nat>)
    requires sys.Valid() && Freeable(sys.cut, sys.flag[..], sys.startPfn, addrs)
    modifies sys`cut, sys.flag, sys.level, sys.nrFree, sys.lists`rings, sys.lists.prev, sys.lists.next
    ensures sys.Valid()
    ensures FreeFrames(sys.cut) == old(FreeFrames(sys.cut)) + old(Blocks(sys.cut, sys.flag[..], sys.startPfn, addrs))
  {
    assert addrs[0..] == addrs;
    ghost var all := FreeFrames(sys.cut) + Blocks(sys.cut, sys.flag[..], sys.startPfn, addrs);
    for i := 0 to |addrs|
      invariant sys.Valid() && Freeable(sys.cut, sys.flag[..], sys.startPfn, addrs[i..])
      invariant FreeFrames(sys.cut) + Blocks(sys.cut, sys.flag[..], sys.startPfn, addrs[i..]) == all
    {
      ghost var cut, flag, left := sys.cut, sys.flag[..], addrs[i..];
      assert left[0] == addrs[i] && left[1..] == addrs[i + 1..];
      var _ := Kfree(sys, addrs[i]);
      OthersStay(cut, flag, sys.cut, sys.flag[..], sys.startPfn, left);
    }
  }

  // ---------------------------------------------------------------- a whole page table

  /** The address of a table, of the frame that some page leads to, or of the directory. */
  predicate InSpace(dir: seq<nat>, tables: PageTable.Tables, self: nat, x: nat)
    requires |dir| == PageTable.ENTRIES
  {
    PageTable.LedToPage(dir, tables, 0, x) || PageTable.Names(dir, 0, x) || x == self
  }

  predicate FrameShared(dir: seq<nat>, tables: PageTable.Tables, self: nat, x: nat, y: nat)
    requires |dir| == PageTable.ENTRIES
  {
    InSpace(dir, tables, self, x) && InSpace(dir, tables, self, y) && x != y && FrameOf(x) == FrameOf(y)
  }

  /** Every table, every frame mapped and the directory are blocks of their own: no two pages lead to one frame, and
      no two addresses differ in nothing but the top bit or the place within a frame. */
  ghost predicate OwnBlocks(dir: seq<nat>, tables: PageTable.Tables, self: nat, cut: Cut, flag: seq<Flag>, start: nat)
    requires |dir| == PageTable.ENTRIES
  {
    && PageTable.Private(dir, tables, 0) && !PageTable.LedToPage(dir, tables, 0, self) && !PageTable.Names(dir, 0, self)
    && (forall x {:trigger InSpace(dir, tables, self, x)} :: InSpace(dir, tables, self, x) ==>
         OwnsBlock(cut, flag, start, x))
    && (forall x, y {:trigger FrameShared(dir, tables, self, x, y)} :: !FrameShared(dir, tables, self, x, y))
  }

  /** A list of such addresses can be freed exactly when none occurs twice, each owns a block, and different ones are
      of different frames. */
  lemma FreeableIs(cut: Cut, flag: seq<Flag>, start: nat, addrs: seq<nat>)
    ensures Freeable(cut, flag, start, addrs) <==>
      && NoDup(addrs) && (forall x :: x in addrs ==> OwnsBlock(cut, flag, start, x))
      && (forall x, y :: x in addrs && y in addrs && x != y ==> FrameOf(x) != FrameOf(y))
  {
    if Freeable(cut, flag, start, addrs) {
      forall i, j | 0 <= i < j < |addrs| ensures addrs[i] != addrs[j] {
        assert FramesApart(addrs, i, j);
      }
      NoDupFromIndices(addrs);
      forall x, y | x in addrs && y in addrs && x != y ensures FrameOf(x) != FrameOf(y) {
        var i :| 0 <= i < |addrs| && addrs[i] == x;
        var j :| 0 <= j < |addrs| && addrs[j] == y;
        assert if i < j then FramesApart(addrs, i, j) else FramesApart(addrs, j, i);
      }
    } else if NoDup(addrs) && forall x :: x in addrs ==> OwnsBlock(cut, flag, start, x) {
      var i, j :| 0 <= i < j < |addrs| && !FramesApart(addrs, i, j);
      NoDupIndices(addrs, i, j);
      assert addrs[i] in addrs && addrs[j] in addrs;
    }
  }

  /** What pgd_delete passes to kfree can all be freed, each block once, exactly when tables, mapped frames and
      directory are blocks of their own. */
  lemma DeleteIsSafeExactlyWhenOwn(dir: seq<nat>, tables: PageTable.Tables, self: nat, cut: Cut, flag: seq<Flag>,
                                   start: nat)
    requires PageTable.TablesOk(dir, tables)
    ensures Freeable(cut, flag, start, PageTable.Released(dir, tables, 0) + [self]) <==>
      OwnBlocks(dir, tables, self, cut, flag, start)
  {
    var released := PageTable.Released(dir, tables, 0);
    var all := released + [self];
    PageTable.ReleasedAre(dir, tables, 0);
    NoDupJoined(released, [self]);
    assert forall x :: x in all <==> InSpace(dir, tables, self, x);
    FreeableIs(cut, flag, start, all);
    if OwnBlocks(dir, tables, self, cut, flag, start) {
      forall x, y | x in all && y in all && x != y ensures FrameOf(x) != FrameOf(y) {
        assert !FrameShared(dir, tables, self, x, y);
      }
    }
  }

  /** pgd_delete with its calls of kfree: everything the space was made of is free afterwards, and nothing else that
      was not. */
  method DeleteSpace(pt: PageTable.PageTable, self: nat, sys: BuddySystem)
    requires pt.Valid() && sys.Valid() && OwnBlocks(pt.dir[..], pt.tables, self, sys.cut, sys.flag[..], sys.startPfn)
    modifies sys`cut, sys.flag, sys.level, sys.nrFree, sys.lists`rings, sys.lists.prev, sys.lists.next
    ensures sys.Valid()
    ensures forall f: nat :: f in FreeFrames(sys.cut) <==>
      || f in old(FreeFrames(sys.cut))
      || exists x :: InSpace(old(pt.dir[..]), old(pt.tables), self, x)
                     && f in old(BlockOf(sys.cut, sys.flag[..], sys.startPfn, x))
  {
    ghost var dir, tables, cut, flag := pt.dir[..], pt.tables, sys.cut, sys.flag[..];
    DeleteIsSafeExactlyWhenOwn(dir, tables, self, cut, flag, sys.startPfn);
    var freed := pt.Delete(self);
    PageTable.ReleasedAre(dir, tables, 0);
    assert forall x :: x in freed <==> InSpace(dir, tables, self, x);
    BlocksAre(cut, flag, sys.startPfn, freed);
    FreeAll(sys, freed);
  }

  lemma {:induction false} BlocksAre(cut: Cut, flag: seq<Flag>, start: nat, addrs: seq<nat>)
    requires AllOwn(cut, flag, start, addrs)
    ensures forall f :: f in Blocks(cut, flag, start, addrs) <==>
      exists x :: x in addrs && OwnsBlock(cut, flag, start, x) && f in BlockOf(cut, flag, start, x)
  {
    if addrs == [] {
    } else {
      BlocksAre(cut, flag, start, addrs[1..]);
      assert addrs == [addrs[0]] + addrs[1..];
    }
  }

  // ---------------------------------------------------------------- where it fails

  /** Two pages of one block, as when a program's pages are mapped one by one over a block allocated in one piece:
      the space cannot be freed page by page, since the address of at most one of them is the block's. */
  lemma PagesOfOneBlock(dir: seq<nat>, tables: PageTable.Tables, self: nat, cut: Cut, flag: seq<Flag>, start: nat,
                        v: nat, w: nat, h: nat, k: nat)
    requires PageTable.TablesOk(dir, tables) && v < w < PageTable.PAGES && Tiled(cut) && Heads(cut, h, k, false)
    requires var x, y := PageTable.Leaf(dir, tables, v), PageTable.Leaf(dir, tables, w);
      && x != 0 && y != 0 && FrameOf(x) >= start && FrameOf(y) >= start
      && FrameOf(x) - start in Run(h, k) && FrameOf(y) - start in Run(h, k)
    ensures !Freeable(cut, flag, start, PageTable.Released(dir, tables, 0) + [self])
  {
    var x, y := PageTable.Leaf(dir, tables, v), PageTable.Leaf(dir, tables, w);
    DeleteIsSafeExactlyWhenOwn(dir, tables, self, cut, flag, start);
    PageTable.LeafIsLedTo(dir, tables, 0, v);
    PageTable.LeafIsLedTo(dir, tables, 0, w);
    assert InSpace(dir, tables, self, x) && InSpace(dir, tables, self, y);
    assert Whole(cut, cut[h]);
    if x == y {
      assert !PageTable.LeavesDiffer(dir, tables, v, w);
    } else if OwnsBlock(cut, flag, start, x) && OwnsBlock(cut, flag, start, y) {
      assert FrameShared(dir, tables, self, x, y);
    }
  }

  /** A page that leads into a slab page: kfree hands it to the slab system as if it were an object. */
  lemma SlabPageMapped(dir: seq<nat>, tables: PageTable.Tables, self: nat, cut: Cut, flag: seq<Flag>, start: nat,
                       v: nat)
    requires PageTable.TablesOk(dir, tables) && v < PageTable.PAGES
    requires PageTable.Leaf(dir, tables, v) != 0 && InSlab(flag, start, PageTable.Leaf(dir, tables, v))
    ensures !Freeable(cut, flag, start, PageTable.Released(dir, tables, 0) + [self])
  {
    DeleteIsSafeExactlyWhenOwn(dir, tables, self, cut, flag, start);
    PageTable.LeafIsLedTo(dir, tables, 0, v);
    assert InSpace(dir, tables, self, PageTable.Leaf(dir, tables, v));
  }

  /** A table whose pages 0 and 1 lead to one frame through addresses that differ in the top bit. */
  function TwoNames(): seq<nat> {
    seq(PageTable.ENTRIES, k => if k == 0 then 0x0050_0000 else if k == 1 then 0x8050_0000 else 0)
  }

  function OneTable(): seq<nat> {
    seq(PageTable.ENTRIES, d => if d == 0 then 0x1000 else 0)
  }

  lemma OneTableIsOk()
    ensures PageTable.TablesOk(OneTable(), map[0x1000 := TwoNames()])
  {
    assert PageTable.Frame(OneTable()[0]) == 0x1000;
  }

  lemma LeavesAreTwo(v: nat)
    requires v < PageTable.PAGES
    ensures PageTable.Leaf(OneTable(), map[0x1000 := TwoNames()], v) ==
      if v == 0 then 0x0050_0000 else if v == 1 then 0x8050_0000 else 0
  {
    assert PageTable.Frame(OneTable()[0]) == 0x1000;
    assert v / PageTable.ENTRIES == 0 ==> v % PageTable.ENTRIES == v;
  }

  /** No address is passed to kfree twice, and yet a frame is freed twice. */
  lemma TopBitHidesASharedFrame(cut: Cut, flag: seq<Flag>, start: nat, self: nat)
    ensures var dir, tables := OneTable(), map[0x1000 := TwoNames()];
      && PageTable.TablesOk(dir, tables) && PageTable.Private(dir, tables, 0)
      && !Freeable(cut, flag, start, PageTable.Released(dir, tables, 0) + [self])
  {
    var dir, tables := OneTable(), map[0x1000 := TwoNames()];
    OneTableIsOk();
    forall v, w | 0 <= v < w < PageTable.PAGES ensures PageTable.LeavesDiffer(dir, tables, v, w) {
      LeavesAreTwo(v);
      LeavesAreTwo(w);
    }
    forall x | PageTable.LedToPage(dir, tables, 0, x) ensures !PageTable.Names(dir, 0, x) {
      var v :| 0 <= v < PageTable.PAGES && PageTable.Leaf(dir, tables, v) == x;
      LeavesAreTwo(v);
    }
    DeleteIsSafeExactlyWhenOwn(dir, tables, self, cut, flag, start);
    LeavesAreTwo(0);
    LeavesAreTwo(1);
    PageTable.LeafIsLedTo(dir, tables, 0, 0);
    PageTable.LeafIsLedTo(dir, tables, 0, 1);
    assert FrameShared(dir, tables, self, 0x0050_0000, 0x8050_0000);
  }
}

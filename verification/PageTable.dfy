/** The two-level page table of kernel/pc/page.c and its removal in kernel/vm/vm.c. */
module PageTable {
  import opened Bits
  import opened Sequences
  import opened Wrappers

  const PAGE: nat := 0x1000
  const ENTRIES: nat := 0x400
  const PAGES: nat := 0x10_0000      // pages in the address space
  const WORD: nat := 0x1_0000_0000

  /** w & PAGE_MASK */
  function Frame(w: nat): nat {
    w - w % PAGE
  }

  type Tables = map<nat, seq<nat>>   // the second-level tables, by address

  function Zeroed(): seq<nat> {
    seq(ENTRIES, _ => 0)
  }

  function Stored(t: seq<nat>, p: nat, w: nat): seq<nat>
    requires p < |t|
  {
    t[p := w]
  }

  lemma IndicesByShift(va: nat)
    ensures Shr(va, 22) == va / PAGE / ENTRIES && And(Shr(va, 12), 0x3ff) == va / PAGE % ENTRIES
  {
    assert Size(22) == 0x40_0000 && Size(12) == 0x1000 && Size(10) == 0x400;
    ShiftIsDivision(va, 22);
    ShiftIsDivision(va, 12);
    MaskIsRemainder(va / PAGE, 10);
  }

  /** The word that the tables hold for page v; 0 where there is no table. */
  function Look(dir: seq<nat>, tables: Tables, v: nat): nat
    requires |dir| == ENTRIES && v < PAGES
  {
    var t := Frame(dir[v / ENTRIES]);
    if t in tables && |tables[t]| == ENTRIES then tables[t][v % ENTRIES] else 0
  }

  predicate Unshared(dir: seq<nat>, d: nat, e: nat)
    requires d < |dir| && e < |dir|
  {
    Frame(dir[d]) != 0 ==> Frame(dir[d]) != Frame(dir[e])
  }

  predicate LedTo(dir: seq<nat>, t: nat) {
    exists d :: 0 <= d < |dir| && Frame(dir[d]) == t
  }

  /** Directory entries lead to tables, each table is led to by one entry. */
  ghost predicate TablesOk(dir: seq<nat>, tables: Tables) {
    && |dir| == ENTRIES && 0 !in tables
    && (forall d :: 0 <= d < ENTRIES && Frame(dir[d]) != 0 ==> Frame(dir[d]) in tables)
    && (forall d, e {:trigger Unshared(dir, d, e)} :: 0 <= d < ENTRIES && 0 <= e < ENTRIES && d != e ==>
         Unshared(dir, d, e))
    && (forall t {:trigger LedTo(dir, t)} :: t in tables ==> LedTo(dir, t))
    && (forall t :: t in tables ==> |tables[t]| == ENTRIES)
  }

  /** What kmalloc may answer: nothing, or a page that is not yet a table. */
  predicate Offer(p: nat, tables: Tables) {
    p == 0 || (p % PAGE == 0 && p < WORD && p !in tables)
  }

  predicate Different(offers: seq<nat>, i: nat, j: nat)
    requires i < |offers| && j < |offers|
  {
    offers[i] != 0 ==> offers[i] != offers[j]
  }

  /** The answers from the i-th to the n-th are possible one after the other. */
  ghost predicate Offers(offers: seq<nat>, i: nat, n: nat, tables: Tables)
    requires n <= |offers|
  {
    && (forall j {:trigger Offer(offers[j], tables)} :: i <= j < n ==> Offer(offers[j], tables))
    && (forall j, k {:trigger Different(offers, j, k)} :: i <= j < k < n ==> Different(offers, j, k))
  }

  lemma StillOffered(offers: seq<nat>, i: nat, n: nat, tables: Tables, tables': Tables)
    requires i < n <= |offers| && Offers(offers, i, n, tables)
    requires forall t :: t in tables' ==> t in tables || (t == offers[i] && t != 0)
    ensures Offers(offers, i + 1, n, tables')
  {
    forall j | i + 1 <= j < n ensures Offer(offers[j], tables') {
      assert Offer(offers[j], tables) && Different(offers, i, j);
    }
  }

  /** The address of the table that a directory entry leads to, or of the one that is made for it. */
  function TableOf(entry: nat, offer: nat): nat {
    if Frame(entry) != 0 then Frame(entry) else offer
  }

  /** Entry d of the directory leads to its table with these attributes; the other entries are as before. */
  ghost predicate LeadsTo(before: seq<nat>, after: seq<nat>, d: nat, offer: nat, attr: nat) {
    d < |before| && after == before[d := TableOf(before[d], offer) + attr]
  }

  class PageTable {
    const dir: array<nat>      // pgd
    var tables: Tables

    ghost predicate Valid()
      reads this, dir
    {
      dir.Length == ENTRIES && TablesOk(dir[..], tables)
    }

    function At(v: nat): nat
      requires dir.Length == ENTRIES && v < PAGES
      reads this, dir
    {
      Look(dir[..], tables, v)
    }

    /** The same as one flat table. */
    ghost function Flat(): (f: seq<nat>)
      requires dir.Length == ENTRIES
      reads this, dir
      ensures |f| == PAGES && forall v :: 0 <= v < PAGES ==> f[v] == At(v)
    {
      seq(PAGES, v requires 0 <= v < PAGES reads this, dir => At(v))
    }

    /** The directory that mm_create makes. */
    constructor ()
      ensures Valid() && fresh(dir) && forall v :: 0 <= v < PAGES ==> Flat()[v] == 0
    {
      dir := new nat[ENTRIES](_ => 0);
      tables := map[];
    }

    /** do_one_mapping; kmalloc, should it be asked, answers `offer`. */
    method MapOne(va: nat, pa: nat, attr: nat, offer: nat) returns (ok: bool)
      requires Valid() && va < WORD && pa < WORD && attr < PAGE && Offer(offer, tables)
      modifies this, dir
      ensures Valid()
      ensures ok == (Frame(old(dir[va / PAGE / ENTRIES])) != 0 || offer != 0)
      ensures Flat() == if ok then old(Flat())[va / PAGE := Frame(pa) + attr] else old(Flat())
      ensures !ok ==> dir[..] == old(dir[..])
      ensures ok ==> LeadsTo(old(dir[..]), dir[..], va / PAGE / ENTRIES, offer, attr)
      ensures forall t :: t in tables ==> t in old(tables) || (t == offer && t != 0)
    {
      ghost var dir0, tables0 := dir[..], tables;
      IndicesByShift(va);
      var d, p := Shr(va, 22), And(Shr(va, 12), 0x3ff);
      var pde := Frame(dir[d]);
      if pde == 0 {
        pde := offer;
        if pde == 0 {
          return false;
        }
        tables := tables[pde := Zeroed()];
        dir[d] := pde + attr;
        TableAdded(dir0, tables0, dir[..], tables, d, pde);
      } else {
        dir[d] := pde + attr;
        AttributeChanged(dir0, dir[..], tables, d);
      }
      ghost var dir1, tables1 := dir[..], tables;
      assert LeadsTo(dir0, dir1, d, offer, attr);
      tables := tables[pde := Stored(tables[pde], p, Frame(pa) + attr)];
      EntrySet(dir1, tables1, tables, d, pde, p, Frame(pa) + attr);
      ok := true;
    }

    /** do_mapping; kmalloc answers offers[i] when page i needs a table. When it fails the pages before the
        failing one are mapped and nothing else has changed. */
    method Map(va: nat, npage: nat, pa: nat, attr: nat, offers: seq<nat>) returns (ok: bool, ghost done: nat)
      requires Valid() && va < WORD && pa < WORD && attr < PAGE && npage <= |offers|
      requires Offers(offers, 0, npage, tables)
      modifies this, dir
      ensures Valid() && done <= npage && ok == (done == npage)
      ensures Flat() == Mapped(old(Flat()), va, pa, attr, done)
      ensures !ok ==> offers[done] == 0 && Frame(dir[Page(va, done) / ENTRIES]) == 0
    {
      var v, p := va, pa;
      done := 0;
      PageIs(va, 0);
      PageIs(pa, 0);
      for i := 0 to npage
        invariant Valid() && v == Wrapped(va, i) && p == Wrapped(pa, i) && done == i
        invariant Offers(offers, i, npage, tables)
        invariant Flat() == Mapped(old(Flat()), va, pa, attr, i)
      {
        PageIs(va, i);
        PageIs(pa, i);
        ok := MapNext(v, p, attr, offers, i, npage);
        if !ok {
          return;
        }
        v, p := (v + PAGE) % WORD, (p + PAGE) % WORD;
        done := i + 1;
      }
      ok := true;
    }

    /** One page of that. */
    method MapNext(va: nat, pa: nat, attr: nat, offers: seq<nat>, i: nat, npage: nat) returns (ok: bool)
      requires Valid() && va < WORD && pa < WORD && attr < PAGE && i < npage <= |offers|
      requires Offers(offers, i, npage, tables)
      modifies this, dir
      ensures Valid() && (ok ==> Offers(offers, i + 1, npage, tables))
      ensures Flat() == if ok then old(Flat())[va / PAGE := Frame(pa) + attr] else old(Flat())
      ensures !ok ==> offers[i] == 0 && Frame(dir[va / PAGE / ENTRIES]) == 0
    {
      ghost var before := tables;
      assert Offer(offers[i], tables);
      ok := MapOne(va, pa, attr, offers[i]);
      if ok {
        StillOffered(offers, i, npage, before, tables);
      }
    }

    /** pgd_delete: what is passed to kfree, in order. `self` is the directory's own address. */
    method Delete(self: nat) returns (freed: seq<nat>)
      requires Valid()
      ensures freed == Released(dir[..], tables, 0) + [self]
    {
      freed := [];
      for i := 0 to ENTRIES
        invariant freed + Released(dir[..], tables, i) == Released(dir[..], tables, 0)
      {
        var pde := Frame(dir[i]);
        if pde != 0 {
          ghost var before := freed;
          var t := tables[pde];
          for j := 0 to ENTRIES
            invariant freed + Leaves(t, j) == before + Leaves(t, 0)
          {
            if Frame(t[j]) != 0 {
              freed := freed + [Frame(t[j])];
            }
          }
          freed := freed + [pde];
          assert before + Released(dir[..], tables, i) ==
            before + Leaves(t, 0) + [pde] + Released(dir[..], tables, i + 1);
        }
      }
      freed := freed + [self];
    }
  }

  /** mm_create; kmalloc answers `mm` for the structure and `pgd` for the directory. Without room for the directory
      the structure is given back. */
  method MmCreate(mm: nat, pgd: nat) returns (r: Option<PageTable>, freed: seq<nat>)
    ensures r.Some? <==> mm != 0 && pgd != 0
    ensures r.Some? ==> freed == [] && fresh(r.value) && fresh(r.value.dir) && r.value.Valid()
                        && forall v :: 0 <= v < PAGES ==> r.value.Flat()[v] == 0
    ensures r.None? ==> freed == if mm != 0 then [mm] else []
  {
    r, freed := None, [];
    if mm != 0 {
      if pgd != 0 {
        var t := new PageTable();
        return Some(t), [];
      }
      freed := [mm];
    }
  }

  /** The i-th page from address va on. */
  function Page(va: nat, i: nat): nat {
    (va / PAGE + i) % PAGES
  }

  /** The address i pages further on; addresses have 32 bits. */
  function Wrapped(a: nat, i: nat): nat {
    (a + i * PAGE) % WORD
  }

  lemma PageIs(va: nat, i: nat)
    requires va < WORD
    ensures Wrapped(va, i) < WORD && Wrapped(va, i) / PAGE == Page(va, i) && Page(va, i) < PAGES
    ensures Wrapped(va, i + 1) == (Wrapped(va, i) + PAGE) % WORD && Wrapped(va, 0) == va
  {
  }

  /** The flat table with the n pages from va on leading to the n frames from pa on, one after the other. */
  function Mapped(flat: seq<nat>, va: nat, pa: nat, attr: nat, n: nat): (f: seq<nat>)
    requires |flat| == PAGES
    ensures |f| == PAGES
  {
    if n == 0 then flat
    else Mapped(flat, va, pa, attr, n - 1)[Page(va, n - 1) := Frame(Wrapped(pa, n - 1)) + attr]
  }

  lemma PagesDiffer(va: nat, i: nat, j: nat)
    requires i < j < i + PAGES
    ensures Page(va, i) != Page(va, j)
  {
  }

  /** As long as n pages fit the address space, page va + i leads to frame pa + i, and no other page has changed. */
  lemma {:induction false} MappedIs(flat: seq<nat>, va: nat, pa: nat, attr: nat, n: nat)
    requires |flat| == PAGES && n <= PAGES
    ensures forall i :: 0 <= i < n ==> Mapped(flat, va, pa, attr, n)[Page(va, i)] == Frame(Wrapped(pa, i)) + attr
    ensures forall v :: 0 <= v < PAGES && (forall i :: 0 <= i < n ==> v != Page(va, i)) ==>
      Mapped(flat, va, pa, attr, n)[v] == flat[v]
    decreases n
  {
    if n == 0 {
    } else {
      MappedIs(flat, va, pa, attr, n - 1);
      forall i | 0 <= i < n - 1 ensures Page(va, i) != Page(va, n - 1) {
        PagesDiffer(va, i, n - 1);
      }
    }
  }

  /** The same in numbers: the page that holds va + i * 0x1000 leads to the frame that holds pa + i * 0x1000. */
  lemma PagesMapped(flat: seq<nat>, va: nat, pa: nat, attr: nat, n: nat, i: nat)
    requires |flat| == PAGES && i < n <= 0x10_0000 && va < 0x1_0000_0000 && pa < 0x1_0000_0000
    ensures var a, b := (va + i * 0x1000) % 0x1_0000_0000, (pa + i * 0x1000) % 0x1_0000_0000;
      a / 0x1000 < PAGES && Mapped(flat, va, pa, attr, n)[a / 0x1000] == b / 0x1000 * 0x1000 + attr
  {
    MappedIs(flat, va, pa, attr, n);
    PageIs(va, i);
  }

  /** A zeroed table under a directory entry that had none changes no page. */
  lemma TableAdded(dir: seq<nat>, tables: Tables, dir': seq<nat>, tables': Tables, d: nat, t: nat)
    requires TablesOk(dir, tables) && d < ENTRIES && Frame(dir[d]) == 0 && t != 0 && t !in tables
    requires tables' == tables[t := Zeroed()]
    requires |dir'| == ENTRIES && Frame(dir'[d]) == t && forall e :: 0 <= e < ENTRIES && e != d ==> dir'[e] == dir[e]
    ensures TablesOk(dir', tables')
    ensures forall v :: 0 <= v < PAGES ==> Look(dir', tables', v) == Look(dir, tables, v)
  {
    forall u | u in tables' ensures LedTo(dir', u) {
      if u == t {
        assert Frame(dir'[d]) == u;
      } else {
        assert LedTo(dir, u);
        var e :| 0 <= e < |dir| && Frame(dir[e]) == u;
        assert Frame(dir'[e]) == u;
      }
    }
    forall e, f | 0 <= e < ENTRIES && 0 <= f < ENTRIES && e != f ensures Unshared(dir', e, f) {
      assert Unshared(dir, e, f);
    }
  }

  lemma AttributeChanged(dir: seq<nat>, dir': seq<nat>, tables: Tables, d: nat)
    requires TablesOk(dir, tables) && d < ENTRIES
    requires |dir'| == ENTRIES && forall e :: 0 <= e < ENTRIES ==> Frame(dir'[e]) == Frame(dir[e])
    ensures TablesOk(dir', tables)
    ensures forall v :: 0 <= v < PAGES ==> Look(dir', tables, v) == Look(dir, tables, v)
  {
    forall u | u in tables ensures LedTo(dir', u) {
      assert LedTo(dir, u);
      var e :| 0 <= e < |dir| && Frame(dir[e]) == u;
      assert Frame(dir'[e]) == u;
    }
    forall e, f | 0 <= e < ENTRIES && 0 <= f < ENTRIES && e != f ensures Unshared(dir', e, f) {
      assert Unshared(dir, e, f);
    }
  }

  /** Because no table is shared, a word stored into one shows at one page only. */
  lemma EntrySet(dir: seq<nat>, tables: Tables, tables': Tables, d: nat, t: nat, p: nat, w: nat)
    requires TablesOk(dir, tables) && d < ENTRIES && p < ENTRIES && Frame(dir[d]) == t && t != 0
    requires t in tables && tables' == tables[t := Stored(tables[t], p, w)]
    ensures TablesOk(dir, tables')
    ensures forall v :: 0 <= v < PAGES ==>
      Look(dir, tables', v) == if v == d * ENTRIES + p then w else Look(dir, tables, v)
  {
    forall v | 0 <= v < PAGES
      ensures Look(dir, tables', v) == if v == d * ENTRIES + p then w else Look(dir, tables, v)
    {
      if v / ENTRIES != d {
        assert Unshared(dir, d, v / ENTRIES);
      }
    }
  }

  /** The frames that entries j and after of a table name. */
  function Leaves(t: seq<nat>, j: nat): seq<nat>
    decreases |t| - j
  {
    if j >= |t| then [] else (if Frame(t[j]) != 0 then [Frame(t[j])] else []) + Leaves(t, j + 1)
  }

  /** What goes to kfree from directory entry i on: a table's frames, then the table. */
  function Released(dir: seq<nat>, tables: Tables, i: nat): seq<nat>
    decreases |dir| - i
  {
    if i >= |dir| then []
    else if Frame(dir[i]) in tables then
      Leaves(tables[Frame(dir[i])], 0) + [Frame(dir[i])] + Released(dir, tables, i + 1)
    else Released(dir, tables, i + 1)
  }

  // ---------------------------------------------------------------- what pgd_delete frees

  predicate Names(t: seq<nat>, j: nat, x: nat) {
    x != 0 && exists k :: j <= k < |t| && Frame(t[k]) == x
  }

  predicate FramesDiffer(t: seq<nat>, k: nat, l: nat)
    requires k < |t| && l < |t|
  {
    Frame(t[k]) != 0 ==> Frame(t[k]) != Frame(t[l])
  }

  /** Exactly the frames named, and none twice exactly when no frame is named twice. */
  lemma {:induction false} LeavesAre(t: seq<nat>, j: nat)
    requires j <= |t|
    ensures forall x :: x in Leaves(t, j) <==> Names(t, j, x)
    ensures NoDup(Leaves(t, j)) <==>
      forall k, l {:trigger FramesDiffer(t, k, l)} :: j <= k < l < |t| ==> FramesDiffer(t, k, l)
    decreases |t| - j
  {
    if j == |t| {
    } else {
      LeavesAre(t, j + 1);
      var f := Frame(t[j]);
      var first: seq<nat> := if f != 0 then [f] else [];
      NoDupJoined(first, Leaves(t, j + 1));
      forall x ensures Names(t, j, x) <==> Names(t, j + 1, x) || (x == f && x != 0) {
      }
      if f != 0 && Names(t, j + 1, f) {
        var k :| j + 1 <= k < |t| && Frame(t[k]) == f;
        assert !FramesDiffer(t, j, k);
      }
    }
  }

  /** The frame that page v leads to; 0 if none. */
  function Leaf(dir: seq<nat>, tables: Tables, v: nat): nat
    requires |dir| == ENTRIES && v < PAGES
  {
    Frame(Look(dir, tables, v))
  }

  predicate LeavesDiffer(dir: seq<nat>, tables: Tables, v: nat, w: nat)
    requires |dir| == ENTRIES && v < PAGES && w < PAGES
  {
    Leaf(dir, tables, v) != 0 ==> Leaf(dir, tables, v) != Leaf(dir, tables, w)
  }

  /** x is a frame of some page from directory entry i on. */
  predicate LedToPage(dir: seq<nat>, tables: Tables, i: nat, x: nat)
    requires |dir| == ENTRIES
  {
    x != 0 && exists v :: i * ENTRIES <= v < PAGES && Leaf(dir, tables, v) == x
  }

  /** From directory entry i on no frame belongs to two pages, and none is itself one of the tables. */
  ghost predicate Private(dir: seq<nat>, tables: Tables, i: nat)
    requires |dir| == ENTRIES
  {
    && (forall v, w {:trigger LeavesDiffer(dir, tables, v, w)} :: i * ENTRIES <= v < w < PAGES ==>
         LeavesDiffer(dir, tables, v, w))
    && (forall x {:trigger LedToPage(dir, tables, i, x)} :: LedToPage(dir, tables, i, x) ==> !Names(dir, i, x))
  }

  /** Where there is a table, its page frames are the leaves of that part of the address space. */
  lemma LeavesOfEntry(dir: seq<nat>, tables: Tables, i: nat, x: nat)
    requires TablesOk(dir, tables) && i < ENTRIES
    ensures LedToPage(dir, tables, i, x) <==>
      LedToPage(dir, tables, i + 1, x) || (Frame(dir[i]) in tables && Names(tables[Frame(dir[i])], 0, x))
    ensures Names(dir, i, x) <==> Names(dir, i + 1, x) || (x == Frame(dir[i]) && x != 0)
  {
    if LedToPage(dir, tables, i, x) {
      var v :| i * ENTRIES <= v < PAGES && Leaf(dir, tables, v) == x;
      if v < (i + 1) * ENTRIES {
        assert v / ENTRIES == i;
        assert Frame(tables[Frame(dir[i])][v % ENTRIES]) == x;
      }
    }
    if Frame(dir[i]) in tables && Names(tables[Frame(dir[i])], 0, x) {
      var k :| 0 <= k < ENTRIES && Frame(tables[Frame(dir[i])][k]) == x;
      assert Leaf(dir, tables, i * ENTRIES + k) == x;
    }
  }

  /** Of the part of the address space under entry i: its frames differ, and neither they nor the table occur
      among the pages and tables from there on. */
  ghost predicate PartPrivate(dir: seq<nat>, tables: Tables, i: nat)
    requires |dir| == ENTRIES && i < ENTRIES && Frame(dir[i]) in tables
  {
    var t := tables[Frame(dir[i])];
    && (forall k, l {:trigger FramesDiffer(t, k, l)} :: 0 <= k < l < |t| ==> FramesDiffer(t, k, l))
    && (forall x {:trigger Names(t, 0, x)} :: Names(t, 0, x) ==> !LedToPage(dir, tables, i + 1, x) && !Names(dir, i, x))
    && !LedToPage(dir, tables, i + 1, Frame(dir[i]))
  }

  /** The leaf of a page under entry i is the frame in its table. */
  lemma LeafUnder(dir: seq<nat>, tables: Tables, i: nat, k: nat)
    requires TablesOk(dir, tables) && i < ENTRIES && k < ENTRIES && Frame(dir[i]) in tables
    ensures i * ENTRIES + k < PAGES && Leaf(dir, tables, i * ENTRIES + k) == Frame(tables[Frame(dir[i])][k])
  {
  }

  lemma LeafIsLedTo(dir: seq<nat>, tables: Tables, i: nat, w: nat)
    requires |dir| == ENTRIES && i * ENTRIES <= w < PAGES && Leaf(dir, tables, w) != 0
    ensures LedToPage(dir, tables, i, Leaf(dir, tables, w))
  {
  }

  lemma PartOfPrivate(dir: seq<nat>, tables: Tables, i: nat)
    requires TablesOk(dir, tables) && i < ENTRIES && Frame(dir[i]) in tables && Private(dir, tables, i)
    ensures PartPrivate(dir, tables, i)
  {
    var t := tables[Frame(dir[i])];
    forall k, l | 0 <= k < l < |t| ensures FramesDiffer(t, k, l) {
      LeafUnder(dir, tables, i, k);
      LeafUnder(dir, tables, i, l);
      assert LeavesDiffer(dir, tables, i * ENTRIES + k, i * ENTRIES + l);
    }
    forall x: nat | Names(t, 0, x) ensures !LedToPage(dir, tables, i + 1, x) && !Names(dir, i, x) {
      LeavesOfEntry(dir, tables, i, x);
      var k :| 0 <= k < |t| && Frame(t[k]) == x;
      LeafUnder(dir, tables, i, k);
      forall w | (i + 1) * ENTRIES <= w < PAGES ensures Leaf(dir, tables, w) != x {
        assert LeavesDiffer(dir, tables, i * ENTRIES + k, w);
      }
    }
    LeavesOfEntry(dir, tables, i, Frame(dir[i]));
  }

  lemma RestOfPrivate(dir: seq<nat>, tables: Tables, i: nat)
    requires TablesOk(dir, tables) && i < ENTRIES && Private(dir, tables, i)
    ensures Private(dir, tables, i + 1)
  {
    var next := i + 1;
    forall x | LedToPage(dir, tables, next, x) ensures !Names(dir, next, x) {
      LeavesOfEntry(dir, tables, i, x);
    }
  }

  /** Two pages from entry i on lead to different frames. */
  lemma PagesUnder(dir: seq<nat>, tables: Tables, i: nat, v: nat, w: nat)
    requires TablesOk(dir, tables) && i < ENTRIES && Frame(dir[i]) in tables
    requires PartPrivate(dir, tables, i) && i * ENTRIES <= v < (i + 1) * ENTRIES && v < w < PAGES
    ensures LeavesDiffer(dir, tables, v, w)
  {
    var t, k := tables[Frame(dir[i])], v - i * ENTRIES;
    LeafUnder(dir, tables, i, k);
    if Leaf(dir, tables, v) != 0 {
      assert Names(t, 0, Frame(t[k]));
      if w < (i + 1) * ENTRIES {
        LeafUnder(dir, tables, i, w - i * ENTRIES);
        assert FramesDiffer(t, k, w - i * ENTRIES);
      } else if Leaf(dir, tables, w) != 0 {
        LeafIsLedTo(dir, tables, i + 1, w);
      }
    }
  }

  lemma PrivateFromParts(dir: seq<nat>, tables: Tables, i: nat)
    requires TablesOk(dir, tables) && i < ENTRIES && Frame(dir[i]) in tables
    requires PartPrivate(dir, tables, i) && Private(dir, tables, i + 1)
    ensures Private(dir, tables, i)
  {
    forall v, w | i * ENTRIES <= v < w < PAGES ensures LeavesDiffer(dir, tables, v, w) {
      if v < (i + 1) * ENTRIES {
        PagesUnder(dir, tables, i, v, w);
      }
    }
    forall x | LedToPage(dir, tables, i, x) ensures !Names(dir, i, x) {
      LeavesOfEntry(dir, tables, i, x);
    }
  }

  /** pgd_delete frees every table and every page frame, nothing else, and nothing twice exactly when no frame is
      shared between pages or is itself a table. */
  lemma {:induction false} ReleasedAre(dir: seq<nat>, tables: Tables, i: nat)
    requires TablesOk(dir, tables) && i <= ENTRIES
    ensures forall x :: x in Released(dir, tables, i) <==> LedToPage(dir, tables, i, x) || Names(dir, i, x)
    ensures NoDup(Released(dir, tables, i)) <==> Private(dir, tables, i)
    decreases ENTRIES - i
  {
    if i == ENTRIES {
    } else {
      ReleasedAre(dir, tables, i + 1);
      if Frame(dir[i]) in tables {
        ReleasedUnder(dir, tables, i, Released(dir, tables, i + 1));
        forall x ensures x in Released(dir, tables, i) <==> LedToPage(dir, tables, i, x) || Names(dir, i, x) {
          LeavesOfEntry(dir, tables, i, x);
        }
        if Private(dir, tables, i) {
          PartOfPrivate(dir, tables, i);
          RestOfPrivate(dir, tables, i);
        } else if PartPrivate(dir, tables, i) && Private(dir, tables, i + 1) {
          PrivateFromParts(dir, tables, i);
        }
      } else {
        NothingUnder(dir, tables, i);
      }
    }
  }

  lemma NothingUnder(dir: seq<nat>, tables: Tables, i: nat)
    requires TablesOk(dir, tables) && i < ENTRIES && Frame(dir[i]) !in tables
    ensures forall x :: LedToPage(dir, tables, i, x) <==> LedToPage(dir, tables, i + 1, x)
    ensures forall x :: Names(dir, i, x) <==> Names(dir, i + 1, x)
    ensures Private(dir, tables, i) <==> Private(dir, tables, i + 1)
  {
    forall x
      ensures LedToPage(dir, tables, i, x) <==> LedToPage(dir, tables, i + 1, x)
      ensures Names(dir, i, x) <==> Names(dir, i + 1, x)
    {
      LeavesOfEntry(dir, tables, i, x);
    }
    if Private(dir, tables, i + 1) {
      forall v, w | i * ENTRIES <= v < w < PAGES ensures LeavesDiffer(dir, tables, v, w) {
        assert v < (i + 1) * ENTRIES ==> Look(dir, tables, v) == 0;
      }
    } else if Private(dir, tables, i) {
      RestOfPrivate(dir, tables, i);
    }
  }

  /** One entry's part of what is freed. */
  lemma ReleasedUnder(dir: seq<nat>, tables: Tables, i: nat, rest: seq<nat>)
    requires TablesOk(dir, tables) && i < ENTRIES && Frame(dir[i]) in tables && rest == Released(dir, tables, i + 1)
    requires forall x :: x in rest <==> LedToPage(dir, tables, i + 1, x) || Names(dir, i + 1, x)
    ensures forall x :: x in Released(dir, tables, i) <==>
      Names(tables[Frame(dir[i])], 0, x) || x == Frame(dir[i]) || x in rest
    ensures NoDup(Released(dir, tables, i)) <==> NoDup(rest) && PartPrivate(dir, tables, i)
  {
    var pde := Frame(dir[i]);
    var t := tables[pde];
    LeavesAre(t, 0);
    NoDupJoined(Leaves(t, 0), [pde]);
    NoDupJoined(Leaves(t, 0) + [pde], rest);
    assert Released(dir, tables, i) == Leaves(t, 0) + [pde] + rest;
    TableNotAgain(dir, tables, i);
    assert pde in rest <==> LedToPage(dir, tables, i + 1, pde);
    forall x: nat | Names(t, 0, x)
      ensures x in rest || x == pde <==> LedToPage(dir, tables, i + 1, x) || Names(dir, i, x)
    {
      LeavesOfEntry(dir, tables, i, x);
    }
  }

  lemma TableNotAgain(dir: seq<nat>, tables: Tables, i: nat)
    requires TablesOk(dir, tables) && i < ENTRIES && Frame(dir[i]) in tables
    ensures !Names(dir, i + 1, Frame(dir[i])) && Frame(dir[i]) != 0
  {
    forall d | i + 1 <= d < |dir| ensures Frame(dir[d]) != Frame(dir[i]) {
      assert Unshared(dir, i, d);
    }
  }

  /** With the directory itself at an address that is neither a table nor a page frame, everything is freed, and
      nothing twice exactly when no frame is shared or is itself a table. */
  lemma DeleteFreesEachOnce(dir: seq<nat>, tables: Tables, self: nat)
    requires TablesOk(dir, tables) && !LedToPage(dir, tables, 0, self) && !Names(dir, 0, self)
    ensures forall v :: 0 <= v < PAGES && Leaf(dir, tables, v) != 0 ==>
      Leaf(dir, tables, v) in Released(dir, tables, 0) + [self]
    ensures forall t :: t in tables ==> t in Released(dir, tables, 0) + [self]
    ensures NoDup(Released(dir, tables, 0) + [self]) <==> Private(dir, tables, 0)
  {
    ReleasedAre(dir, tables, 0);
    NoDupJoined(Released(dir, tables, 0), [self]);
    forall v | 0 <= v < PAGES && Leaf(dir, tables, v) != 0 ensures Leaf(dir, tables, v) in Released(dir, tables, 0) {
      LeafIsLedTo(dir, tables, 0, v);
    }
    forall t | t in tables ensures Names(dir, 0, t) {
      assert LedTo(dir, t);
    }
  }
}

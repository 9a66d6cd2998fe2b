/** The write-back cache of kernel/fs/fscache/fscache.c over the block device.

    A block is `count` consecutive sectors, named by its first sector. The logical disk is
    the cached copy where there is one and the device's block otherwise; nothing the cache
    does on its own account changes it. */
module Cache {
  import opened Device
  import opened Clock

  /** The first slot that holds block a; |s| if none does. */
  function Find(s: seq<Slot>, a: nat, from: nat): (r: nat)
    requires from <= |s|
    ensures from <= r <= |s|
    ensures r < |s| ==> s[r].cur == a
    decreases |s| - from
  {
    if from == |s| || s[from].cur == a then from else Find(s, a, from + 1)
  }

  /** No slot before the one found holds the block. */
  lemma {:induction false} FoundFirst(s: seq<Slot>, a: nat, from: nat)
    requires from <= |s|
    ensures forall k :: from <= k < Find(s, a, from) ==> s[k].cur != a
    decreases |s| - from
  {
    if from == |s| || s[from].cur == a {
    } else {
      FoundFirst(s, a, from + 1);
    }
  }

  /** The logical contents of block a. */
  ghost function Logical(s: seq<Slot>, sec: seq<Sector>, a: nat, count: nat): seq<byte>
    requires a + count <= |sec|
  {
    if Find(s, a, 0) < |s| then s[Find(s, a, 0)].buf else Block(sec, a, count)
  }

  /** The blocks at a and at b have no sector in common. */
  predicate Beside(a: nat, b: nat, count: nat) {
    a + count <= b || b + count <= a
  }

  /** Blocks that lie on the device and do not overlap. */
  ghost predicate Blocks(domain: set<nat>, count: nat, size: nat) {
    && (forall a :: a in domain ==> a + count <= size && a != EMPTY)
    && (forall a, b {:trigger Beside(a, b, count)} :: a in domain && b in domain && a != b ==> Beside(a, b, count))
  }

  /** Slots i and j do not hold the same block. */
  predicate Apart(s: seq<Slot>, i: nat, j: nat)
    requires i < |s| && j < |s|
  {
    s[i].cur == s[j].cur ==> s[i].cur == EMPTY
  }

  ghost predicate AllApart(s: seq<Slot>) {
    forall i, j {:trigger Apart(s, i, j)} :: 0 <= i < |s| && 0 <= j < |s| && i != j ==> Apart(s, i, j)
  }

  /** No block is held twice, and a clean slot agrees with the device. */
  ghost predicate SlotsOk(s: seq<Slot>, sec: seq<Sector>, domain: set<nat>, count: nat) {
    && (forall i :: 0 <= i < |s| ==> |s[i].buf| == SECTOR * count && (s[i].cur == EMPTY || s[i].cur in domain))
    && AllApart(s)
    && (forall i :: 0 <= i < |s| && s[i].cur != EMPTY && !s[i].dirty ==>
          s[i].cur + count <= |sec| && s[i].buf == Block(sec, s[i].cur, count))
  }

  /** The logical disk is the same in both states. */
  ghost predicate SameLogical(s: seq<Slot>, sec: seq<Sector>, t: seq<Slot>, sec': seq<Sector>, domain: set<nat>,
                              count: nat)
    requires Blocks(domain, count, |sec|) && |sec'| == |sec|
  {
    forall a :: a in domain ==> Logical(t, sec', a, count) == Logical(s, sec, a, count)
  }

  /** Slots stay apart when one of them, or none, comes to hold a block that no other holds. */
  lemma ApartStays(s: seq<Slot>, t: seq<Slot>, i: nat)
    requires AllApart(s) && |t| == |s|
    requires forall k :: 0 <= k < |s| && k != i ==> t[k].cur == s[k].cur
    requires i < |s| ==> t[i].cur == s[i].cur || forall k :: 0 <= k < |s| ==> s[k].cur != t[i].cur
    ensures AllApart(t)
  {
    forall j, k | 0 <= j < |t| && 0 <= k < |t| && j != k ensures Apart(t, j, k) {
      assert Apart(s, j, k);
    }
  }

  ghost function Held(s: seq<Slot>): set<nat> {
    set i | 0 <= i < |s| && s[i].cur != EMPTY :: s[i].cur
  }

  ghost predicate SameHolders(s: seq<Slot>, t: seq<Slot>) {
    |s| == |t| && forall i :: 0 <= i < |s| ==> t[i].cur == s[i].cur
  }

  lemma HoldersDecide(s: seq<Slot>, t: seq<Slot>, a: nat)
    requires SameHolders(s, t)
    ensures Held(t) == Held(s) && Find(t, a, 0) == Find(s, a, 0)
  {
    FindSame(s, t, a, 0);
    assert forall i :: 0 <= i < |s| && s[i].cur != EMPTY ==> t[i].cur in Held(t) && s[i].cur in Held(s);
  }

  /** Sector k lies in block a. */
  predicate Inside(k: nat, a: nat, count: nat) {
    a <= k < a + count
  }

  /** Sectors outside the blocks held in s are the same on both devices. */
  ghost predicate Untouched(s: seq<Slot>, sec: seq<Sector>, sec': seq<Sector>, count: nat) {
    && |sec| == |sec'|
    && forall k: nat :: k < |sec| && (forall a :: a in Held(s) ==> !Inside(k, a, count)) ==> sec'[k] == sec[k]
  }

  lemma HeldOnce(s: seq<Slot>, i: nat)
    requires i < |s| && s[i].cur != EMPTY && AllApart(s)
    ensures forall j :: 0 <= j < |s| && j != i ==> s[j].cur != s[i].cur
  {
    forall j | 0 <= j < |s| && j != i ensures s[j].cur != s[i].cur {
      assert Apart(s, j, i);
    }
  }

  lemma FindIs(s: seq<Slot>, i: nat)
    requires i < |s| && s[i].cur != EMPTY
    requires AllApart(s)
    ensures Find(s, s[i].cur, 0) == i
  {
    HeldOnce(s, i);
    FoundFirst(s, s[i].cur, 0);
  }

  lemma {:induction false} FindSame(s: seq<Slot>, t: seq<Slot>, a: nat, from: nat)
    requires |s| == |t| && from <= |s|
    requires forall i :: 0 <= i < |s| ==> (s[i].cur == a <==> t[i].cur == a)
    ensures Find(t, a, from) == Find(s, a, from)
    decreases |s| - from
  {
    if from == |s| || s[from].cur == a {
    } else {
      FindSame(s, t, a, from + 1);
    }
  }

  /** Changing bits of slots changes nothing. */
  lemma BitsDoNotMatter(s: seq<Slot>, t: seq<Slot>, sec: seq<Sector>, domain: set<nat>, count: nat)
    requires Blocks(domain, count, |sec|) && SlotsOk(s, sec, domain, count) && |s| == |t|
    requires forall i :: 0 <= i < |s| ==> t[i].buf == s[i].buf && t[i].cur == s[i].cur && t[i].dirty == s[i].dirty
    ensures SlotsOk(t, sec, domain, count) && SameLogical(s, sec, t, sec, domain, count)
  {
    ApartStays(s, t, |s|);
    forall a | a in domain ensures Logical(t, sec, a, count) == Logical(s, sec, a, count) {
      FindSame(s, t, a, 0);
    }
  }

  /** Writing slot i's block to the device, in part or whole; the slot stays dirty unless all of it got there. */
  lemma WrittenBack(s: seq<Slot>, sec: seq<Sector>, sec': seq<Sector>, domain: set<nat>, count: nat, i: nat, all: bool)
    requires Blocks(domain, count, |sec|) && SlotsOk(s, sec, domain, count) && |sec'| == |sec|
    requires i < |s| && s[i].cur != EMPTY && s[i].dirty
    requires forall k :: 0 <= k < |sec| && !(s[i].cur <= k < s[i].cur + count) ==> sec'[k] == sec[k]
    requires all ==> Block(sec', s[i].cur, count) == s[i].buf
    ensures var t := if all then s[i := s[i].(dirty := false)] else s;
      SlotsOk(t, sec', domain, count) && SameLogical(s, sec, t, sec', domain, count)
  {
    var t := if all then s[i := s[i].(dirty := false)] else s;
    ApartStays(s, t, i);
    HeldOnce(s, i);
    forall a | a in domain && a != s[i].cur ensures Block(sec', a, count) == Block(sec, a, count) {
      assert Beside(a, s[i].cur, count);
      BlockFrame(sec, sec', a, count);
    }
    forall a | a in domain ensures Logical(t, sec', a, count) == Logical(s, sec, a, count) {
      FindSame(s, t, a, 0);
      if a == s[i].cur {
        FindIs(s, i);
      }
    }
  }

  /** What happens on the device outside the domain does not concern the cache. */
  lemma OutsideDomain(s: seq<Slot>, sec: seq<Sector>, sec': seq<Sector>, domain: set<nat>, count: nat)
    requires Blocks(domain, count, |sec|) && SlotsOk(s, sec, domain, count) && |sec'| == |sec|
    requires forall a, k :: a in domain && a <= k < a + count ==> sec'[k] == sec[k]
    ensures SlotsOk(s, sec', domain, count) && SameLogical(s, sec, s, sec', domain, count)
  {
    forall a | a in domain ensures Block(sec', a, count) == Block(sec, a, count) {
      BlockFrame(sec, sec', a, count);
    }
  }

  /** A change on the device to a block that no slot holds shows in that block only. */
  lemma ChangedAtUnheld(s: seq<Slot>, sec: seq<Sector>, sec': seq<Sector>, domain: set<nat>, count: nat, a: nat)
    requires Blocks(domain, count, |sec|) && SlotsOk(s, sec, domain, count) && |sec'| == |sec|
    requires a in domain && a !in Held(s)
    requires forall b, k :: b in domain && b != a && b <= k < b + count ==> sec'[k] == sec[k]
    ensures SlotsOk(s, sec', domain, count)
    ensures forall b :: b in domain && b != a ==> Logical(s, sec', b, count) == Logical(s, sec, b, count)
  {
    forall b | b in domain && b != a ensures Block(sec', b, count) == Block(sec, b, count) {
      BlockFrame(sec, sec', b, count);
    }
    assert forall i :: 0 <= i < |s| && s[i].cur != EMPTY ==> s[i].cur in Held(s);
  }

  /** A clean or empty slot may be given to an uncached block, with that block's contents. */
  lemma Replaced(s: seq<Slot>, sec: seq<Sector>, domain: set<nat>, count: nat, i: nat, a: nat, ref: bool)
    requires Blocks(domain, count, |sec|) && SlotsOk(s, sec, domain, count)
    requires i < |s| && (s[i].cur == EMPTY || !s[i].dirty) && a in domain
    requires Find(s, a, 0) == |s|
    ensures var t := s[i := Slot(Block(sec, a, count), a, ref, false)];
      SlotsOk(t, sec, domain, count) && SameLogical(s, sec, t, sec, domain, count)
  {
    var t := s[i := Slot(Block(sec, a, count), a, ref, false)];
    FoundFirst(s, a, 0);
    ReplacedOk(s, t, sec, domain, count, i, a);
    forall b | b in domain ensures Logical(t, sec, b, count) == Logical(s, sec, b, count) {
      ReplacedAt(s, t, sec, domain, count, i, a, b);
    }
  }

  lemma ReplacedOk(s: seq<Slot>, t: seq<Slot>, sec: seq<Sector>, domain: set<nat>, count: nat, i: nat, a: nat)
    requires Blocks(domain, count, |sec|) && SlotsOk(s, sec, domain, count) && i < |s| == |t| && a in domain
    requires forall k :: 0 <= k < |s| ==> s[k].cur != a
    requires t[i].cur == a && t[i].buf == Block(sec, a, count) && forall k :: 0 <= k < |s| && k != i ==> t[k] == s[k]
    ensures SlotsOk(t, sec, domain, count)
  {
    ApartStays(s, t, i);
  }

  lemma ReplacedAt(s: seq<Slot>, t: seq<Slot>, sec: seq<Sector>, domain: set<nat>, count: nat, i: nat, a: nat, b: nat)
    requires Blocks(domain, count, |sec|) && SlotsOk(s, sec, domain, count) && SlotsOk(t, sec, domain, count)
    requires i < |s| == |t| && (s[i].cur == EMPTY || !s[i].dirty) && a in domain && b in domain
    requires forall k :: 0 <= k < |s| ==> s[k].cur != a
    requires t[i].cur == a && t[i].buf == Block(sec, a, count) && forall k :: 0 <= k < |s| && k != i ==> t[k] == s[k]
    ensures Logical(t, sec, b, count) == Logical(s, sec, b, count)
  {
    if b == a {
      NotFound(s, a);
      FindIs(t, i);
    } else if b == s[i].cur {
      FindIs(s, i);
      HeldOnce(s, i);
      NotFound(t, b);
    } else {
      FindSame(s, t, b, 0);
    }
  }

  /** A new dirty buffer in slot i is the new contents of its block. */
  lemma StoredInto(s: seq<Slot>, t: seq<Slot>, sec: seq<Sector>, domain: set<nat>, count: nat, i: nat)
    requires Blocks(domain, count, |sec|) && SlotsOk(s, sec, domain, count) && |s| == |t| && i < |s|
    requires s[i].cur != EMPTY && t[i].cur == s[i].cur && t[i].dirty && |t[i].buf| == SECTOR * count
    requires forall j :: 0 <= j < |s| && j != i ==> t[j] == s[j]
    ensures SlotsOk(t, sec, domain, count) && Held(t) == Held(s)
    ensures Logical(t, sec, s[i].cur, count) == t[i].buf
    ensures forall a :: a in domain && a != s[i].cur ==> Logical(t, sec, a, count) == Logical(s, sec, a, count)
  {
    ApartStays(s, t, i);
    FindIs(t, i);
    forall a | a in domain && a != s[i].cur ensures Logical(t, sec, a, count) == Logical(s, sec, a, count) {
      FindSame(s, t, a, 0);
    }
  }

  lemma NotHeld(s: seq<Slot>, a: nat)
    requires a !in Held(s) && a != EMPTY
    ensures Find(s, a, 0) == |s|
  {
    assert forall i :: 0 <= i < |s| && s[i].cur != EMPTY ==> s[i].cur in Held(s);
  }

  lemma NotFound(s: seq<Slot>, a: nat)
    requires forall k :: 0 <= k < |s| ==> s[k].cur != a
    ensures Find(s, a, 0) == |s|
  {
  }

  /** Byte j of b after len bytes of src, from start on, have been copied over b from `from` on. */
  function Patched(b: seq<byte>, from: nat, src: seq<byte>, start: nat, len: nat, j: nat): byte
    requires j < |b| && start + len <= |src|
  {
    if from <= j < from + len then src[start + j - from] else b[j]
  }

  class BlockCache {
    const slots: array<Slot>
    const disk: Disk
    const count: nat             // sectors to a block
    var head: nat                // clock_head
    ghost const domain: set<nat> // the blocks this cache is used for

    ghost predicate Valid()
      reads this, slots, disk
    {
      && head < slots.Length
      && Blocks(domain, count, |disk.sec|)
      && SlotsOk(slots[..], disk.sec, domain, count)
    }

    ghost function At(a: nat): seq<byte>
      reads this, slots, disk
      requires a + count <= |disk.sec|
    {
      Logical(slots[..], disk.sec, a, count)
    }

    /** All slots empty, as fs_open leaves them. */
    constructor (size: nat, count: nat, disk: Disk, ghost domain: set<nat>)
      requires size > 0 && Blocks(domain, count, |disk.sec|)
      ensures Valid() && fresh(slots) && this.disk == disk && this.count == count && this.domain == domain
      ensures slots.Length == size && forall i :: 0 <= i < size ==> slots[i].cur == EMPTY
      ensures forall a :: a in domain ==> At(a) == Block(disk.sec, a, count)
    {
      slots := new Slot[size](_ => Slot(Zeros(count), EMPTY, false, false));
      head := 0;
      this.count := count;
      this.disk := disk;
      this.domain := domain;
    }

    /** fs_write_4k, fs_write_512: a dirty slot goes to the device. */
    method WriteBack(i: nat) returns (ok: bool)
      requires Valid() && i < slots.Length
      modifies slots, disk
      ensures Valid() && |disk.sec| == old(|disk.sec|)
      ensures SameLogical(old(slots[..]), old(disk.sec), slots[..], disk.sec, domain, count)
      ensures ok ==> slots[i].cur == EMPTY || !slots[i].dirty
      ensures slots[..] == old(slots[..])[i := old(slots[i]).(dirty := slots[i].dirty)]
      ensures SameHolders(old(slots[..]), slots[..])
      ensures Untouched(old(slots[..]), old(disk.sec), disk.sec, count)
      ensures if ok then disk.errors == old(disk.errors) else disk.errors > old(disk.errors)
    {
      ghost var s, sec := slots[..], disk.sec;
      if slots[i].cur != EMPTY && slots[i].dirty {
        assert slots[i].cur in Held(s);
        ok := disk.WriteBlock(slots[i].buf, slots[i].cur, count);
        WrittenBack(s, sec, disk.sec, domain, count, i, ok);
        if !ok {
          assert slots[..] == s;
          return;
        }
        slots[i] := slots[i].(dirty := false);
        assert slots[..] == s[i := s[i].(dirty := false)];
      }
      ok := true;
    }

    /** The victim, written back: the common start of every replacement. */
    method Evict() returns (ok: bool, index: nat)
      requires Valid()
      modifies slots, disk, this`head
      ensures Valid() && |disk.sec| == old(|disk.sec|)
      ensures index == Choice(old(slots[..]), old(head)) && head == Wrap(index, 1, slots.Length)
      ensures SweptFor(old(slots[..]), slots[..], old(head), index)
      ensures SameLogical(old(slots[..]), old(disk.sec), slots[..], disk.sec, domain, count)
      ensures ok ==> slots[index].cur == EMPTY || !slots[index].dirty
      ensures SameHolders(old(slots[..]), slots[..])
      ensures Untouched(old(slots[..]), old(disk.sec), disk.sec, count)
      ensures if ok then disk.errors == old(disk.errors) else disk.errors > old(disk.errors)
    {
      ghost var s0 := slots[..];
      index, head := Victim(slots, head);
      BitsDoNotMatter(s0, slots[..], disk.sec, domain, count);
      HoldersDecide(s0, slots[..], 0);
      ghost var s1 := slots[..];
      ok := WriteBack(index);
      SweptAndWritten(s0, s1, slots[..], old(head), index);
    }

    /** fs_read_4k, fs_read_512: find the block, or replace the victim by it. */
    method Read(a: nat) returns (ok: bool, index: nat)
      requires Valid() && a in domain
      modifies slots, disk, this`head
      ensures Valid() && |disk.sec| == old(|disk.sec|)
      ensures SameLogical(old(slots[..]), old(disk.sec), slots[..], disk.sec, domain, count)
      ensures ok ==> index < slots.Length && slots[index].cur == a && slots[index].buf == At(a) && slots[index].ref
      ensures old(Find(slots[..], a, 0)) < slots.Length ==>
        ok && slots[..] == old(slots[..])[index := old(slots[..])[index].(ref := true)] && head == old(head)
      ensures ok ==>
        index == var i := Find(old(slots[..]), a, 0); if i < slots.Length then i else Choice(old(slots[..]), old(head))
      ensures Held(slots[..]) <= Held(old(slots[..])) + {a}
      ensures Untouched(old(slots[..]), old(disk.sec), disk.sec, count)
      ensures if ok then disk.errors == old(disk.errors) else disk.errors > old(disk.errors)
    {
      ghost var s := slots[..];
      index := 0;
      while index < slots.Length && slots[index].cur != a
        invariant 0 <= index <= slots.Length
        invariant Find(s, a, index) == Find(s, a, 0)
      {
        index := index + 1;
      }
      if index < slots.Length {
        slots[index] := slots[index].(ref := true);
        BitsDoNotMatter(s, slots[..], disk.sec, domain, count);
        HoldersDecide(s, slots[..], a);
        ok := true;
        return;
      }
      ok, index := Evict();
      HoldersDecide(s, slots[..], a);
      if !ok {
        return;
      }
      ok := Fill(index, a);
    }

    /** read_block into a slot that may be overwritten. */
    method Fill(index: nat, a: nat) returns (ok: bool)
      requires Valid() && a in domain && Find(slots[..], a, 0) == slots.Length
      requires index < slots.Length && (slots[index].cur == EMPTY || !slots[index].dirty)
      modifies slots, disk`errors
      ensures Valid()
      ensures SameLogical(old(slots[..]), disk.sec, slots[..], disk.sec, domain, count)
      ensures ok ==> slots[index].cur == a && slots[index].buf == At(a) && slots[index].ref && !slots[index].dirty
      ensures Held(slots[..]) <= Held(old(slots[..])) + {a}
      ensures if ok then disk.errors == old(disk.errors) else disk.errors > old(disk.errors)
    {
      ghost var s := slots[..];
      var data;
      ok, data := disk.ReadBlock(a, count);
      if ok {
        Replaced(s, disk.sec, domain, count, index, a, true);
        slots[index] := Slot(data, a, true, false);
        assert slots[..] == s[index := Slot(data, a, true, false)];
        FindIs(slots[..], index);
      }
    }

    /** fs_clr_4k: take up a block that is known to be blank on the device without reading it. */
    method Clear(a: nat) returns (ok: bool)
      requires Valid() && a in domain && a !in Held(slots[..])
      requires Block(disk.sec, a, count) == Zeros(count)
      modifies slots, disk, this`head
      ensures Valid() && |disk.sec| == old(|disk.sec|)
      ensures SameLogical(old(slots[..]), old(disk.sec), slots[..], disk.sec, domain, count)
      ensures Held(slots[..]) <= Held(old(slots[..])) + {a}
      ensures ok ==> exists i :: 0 <= i < slots.Length && slots[i] == Slot(Zeros(count), a, false, false)
      ensures Untouched(old(slots[..]), old(disk.sec), disk.sec, count)
      ensures if ok then disk.errors == old(disk.errors) else disk.errors > old(disk.errors)
    {
      ghost var s0, sec0 := slots[..], disk.sec;
      var index;
      ok, index := Evict();
      ghost var s := slots[..];
      HoldersDecide(s0, s, a);
      if !ok {
        return;
      }
      NotHeld(s, a);
      NotHeld(s0, a);
      assert Logical(s, disk.sec, a, count) == Logical(s0, sec0, a, count);
      Replaced(s, disk.sec, domain, count, index, a, false);
      slots[index] := Slot(Zeros(count), a, false, false);
      assert slots[..] == s[index := Slot(Zeros(count), a, false, false)];
    }

    /** Storing into the buffer of a slot just read, as fs_write does; state becomes 3. */
    method Store(i: nat, from: nat, src: seq<byte>, start: nat, len: nat)
      requires Valid() && i < slots.Length && slots[i].cur != EMPTY
      requires from + len <= SECTOR * count && start + len <= |src|
      modifies slots
      ensures Valid() && slots[i].cur == old(slots[i].cur) && slots[i].ref && slots[i].dirty
      ensures Held(slots[..]) == Held(old(slots[..]))
      ensures |At(slots[i].cur)| == SECTOR * count
      ensures forall j :: 0 <= j < SECTOR * count ==>
        At(slots[i].cur)[j] == Patched(old(slots[i].buf), from, src, start, len, j)
      ensures forall a :: a in domain && a != slots[i].cur ==> At(a) == old(At(a))
    {
      ghost var s := slots[..];
      slots[i] := slots[i].(ref := true, dirty := true);
      CopyIn(i, from, src, start, len);
      StoredInto(s, slots[..], disk.sec, domain, count, i);
    }

    /** The copying loop itself. */
    method CopyIn(i: nat, from: nat, src: seq<byte>, start: nat, len: nat)
      requires i < slots.Length && from + len <= |slots[i].buf| && start + len <= |src|
      modifies slots
      ensures forall j :: 0 <= j < slots.Length && j != i ==> slots[j] == old(slots[j])
      ensures slots[i] == old(slots[i]).(buf := slots[i].buf) && |slots[i].buf| == |old(slots[i].buf)|
      ensures forall j :: 0 <= j < |slots[i].buf| ==>
        slots[i].buf[j] == Patched(old(slots[i].buf), from, src, start, len, j)
    {
      ghost var b := slots[i].buf;
      for k := 0 to len
        invariant forall j :: 0 <= j < slots.Length && j != i ==> slots[j] == old(slots[j])
        invariant slots[i] == old(slots[i]).(buf := slots[i].buf) && |slots[i].buf| == |b|
        invariant forall j :: 0 <= j < |b| ==> slots[i].buf[j] == Patched(b, from, src, start, k, j)
      {
        slots[i] := slots[i].(buf := slots[i].buf[from + k := src[start + k]]);
      }
    }

    /** The copying loop of fs_read. */
    method CopyOut(i: nat, from: nat, len: nat, data: seq<byte>) returns (more: seq<byte>)
      requires i < slots.Length && from + len <= |slots[i].buf|
      ensures more == data + slots[i].buf[from..from + len]
    {
      more := data;
      for k := 0 to len
        invariant more == data + slots[i].buf[from..from + k]
      {
        more := more + [slots[i].buf[from + k]];
      }
    }

    /** The slots of a file go to the device one after the other, as fs_close and fs_fflush have them. */
    method Flush() returns (ok: bool)
      requires Valid()
      modifies slots, disk
      ensures Valid() && |disk.sec| == old(|disk.sec|)
      ensures SameLogical(old(slots[..]), old(disk.sec), slots[..], disk.sec, domain, count)
      ensures Held(slots[..]) == Held(old(slots[..]))
      ensures Untouched(old(slots[..]), old(disk.sec), disk.sec, count)
      ensures ok ==> forall a :: a in domain ==> Block(disk.sec, a, count) == old(At(a))
      ensures if ok then disk.errors == old(disk.errors) else disk.errors > old(disk.errors)
    {
      ghost var s0, sec0 := slots[..], disk.sec;
      for i := 0 to slots.Length
        invariant Valid() && |disk.sec| == |sec0|
        invariant SameLogical(s0, sec0, slots[..], disk.sec, domain, count)
        invariant Held(slots[..]) == Held(s0)
        invariant Untouched(s0, sec0, disk.sec, count)
        invariant disk.errors == old(disk.errors)
        invariant forall k :: 0 <= k < i ==> slots[k].cur == EMPTY || !slots[k].dirty
      {
        ghost var s := slots[..];
        ok := WriteBack(i);
        HoldersDecide(s, slots[..], 0);
        if !ok {
          return;
        }
      }
      ok := true;
    }
  }
}

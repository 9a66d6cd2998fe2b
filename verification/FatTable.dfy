/** The file allocation table of kernel/fs/fat: entries of 32 bits, of which the low 28 count,
    read and changed through a small write-back buffer that keeps the second copy in step. */
module FatTable {
  import opened Bits
  import opened Device
  import opened Clock
  import opened Cache

  const LOW28: nat := 0x1000_0000
  const ENTRIES: nat := 128          // to a sector
  const WILD: nat := 0x7f_ffff       // the sector, counted from the table's start, that entry 0xffffffff would lie in

  /** get_u32 */
  function GetU32(b: seq<byte>, at: nat): (v: nat)
    requires at + 4 <= |b|
    ensures v < 0x1_0000_0000
  {
    b[at] as int + 0x100 * b[at + 1] as int + 0x1_0000 * b[at + 2] as int + 0x100_0000 * b[at + 3] as int
  }

  /** set_u32 */
  function SetU32(b: seq<byte>, at: nat, v: nat): (r: seq<byte>)
    requires at + 4 <= |b|
    ensures |r| == |b|
  {
    b[at := v % 0x100][at + 1 := v / 0x100 % 0x100][at + 2 := v / 0x1_0000 % 0x100][at + 3 := v / 0x100_0000 % 0x100]
  }

  /** The four bytes of a word, the least first. */
  lemma BytesOfWord(b: seq<byte>, at: nat, i: nat)
    requires at + 4 <= |b| && i < 4
    ensures Shr(GetU32(b, at), 8 * i) % 0x100 == b[at + i]
  {
    var w := GetU32(b, at);
    ShiftByBytes(w, i);
    var y: nat := b[at + 2] as int + 0x100 * b[at + 3] as int;
    var x: nat := b[at + 1] as int + 0x100 * y;
    assert w == 0x100 * x + b[at] as int && x == 0x100 * y + b[at + 1] as int;
    RemainderIs(w, 0x100, x, b[at]);
    RemainderIs(x, 0x100, y, b[at + 1]);
    RemainderIs(y, 0x100, b[at + 3], b[at + 2]);
  }

  /** A shift by whole bytes, one byte at a time. */
  lemma ShiftByBytes(w: nat, i: nat)
    requires i < 4
    ensures Shr(w, 8 * i) == if i == 0 then w else if i == 1 then w / 0x100
                             else if i == 2 then w / 0x100 / 0x100 else w / 0x100 / 0x100 / 0x100
  {
    assert Size(8) == 0x100;
    ShiftIsDivision(w, 8);
    ShiftIsDivision(w / 0x100, 8);
    ShiftIsDivision(w / 0x100 / 0x100, 8);
    ShiftInParts(w, 8, 8);
    ShiftInParts(w, 16, 8);
    ShiftInParts(w, 8, 16);
  }

  /** Where the bytes of a word go; all others stay. */
  lemma BytesStored(b: seq<byte>, at: nat, v: nat)
    requires at + 4 <= |b|
    ensures SetU32(b, at, v)[at] == v % 0x100 && SetU32(b, at, v)[at + 1] == Shr(v, 8) % 0x100
    ensures SetU32(b, at, v)[at + 2] == Shr(v, 16) % 0x100 && SetU32(b, at, v)[at + 3] == Shr(v, 24) % 0x100
    ensures SameElsewhere(b, SetU32(b, at, v), at)
  {
    assert Size(8) == 0x100 && Size(16) == 0x1_0000 && Size(24) == 0x100_0000;
    ShiftIsDivision(v, 8);
    ShiftIsDivision(v, 16);
    ShiftIsDivision(v, 24);
  }

  /** Outside the four bytes at `at` nothing has changed. */
  predicate SameElsewhere(b: seq<byte>, b': seq<byte>, at: nat) {
    |b'| == |b| && forall k :: 0 <= k < |b| && !(at <= k < at + 4) ==> b'[k] == b[k]
  }

  lemma GetAfterSet(b: seq<byte>, at: nat, v: nat)
    requires at + 4 <= |b| && v < 0x1_0000_0000
    ensures GetU32(SetU32(b, at, v), at) == v
  {
    var x := v / 0x100;
    var y := x / 0x100;
    assert v / 0x1_0000 == y;
    assert v / 0x100_0000 == y / 0x100 < 0x100;
    assert v == v % 0x100 + 0x100 * (x % 0x100 + 0x100 * (y % 0x100 + 0x100 * (y / 0x100)));
  }

  lemma GetElsewhere(b: seq<byte>, at: nat, v: nat, other: nat)
    requires at + 4 <= |b| && other + 4 <= |b| && (other + 4 <= at || at + 4 <= other)
    ensures GetU32(SetU32(b, at, v), other) == GetU32(b, other)
  {
  }

  /** The entry with its low 28 bits replaced; the top four are kept. */
  function WithLow28(old32: nat, v: nat): (r: nat)
    ensures old32 < 0x1_0000_0000 ==> r < 0x1_0000_0000
    ensures r % LOW28 == v % LOW28 && r / LOW28 == old32 / LOW28
  {
    old32 / LOW28 * LOW28 + v % LOW28
  }

  /** w is the word at `at` of b, least byte first. */
  predicate WordAt(b: seq<byte>, at: nat, w: nat)
    requires at + 4 <= |b|
  {
    w == b[at] as int + 0x100 * b[at + 1] as int + 0x1_0000 * b[at + 2] as int + 0x100_0000 * b[at + 3] as int
  }

  /** cluster_to_fat_entry: the sector, counted from the start of the table, and the byte in it. The
      byte offset of an entry is a 32-bit word. */
  function EntrySector(c: nat): (r: nat)
    ensures c < LOW28 ==> r == c / ENTRIES
  {
    c * 4 % 0x1_0000_0000 / SECTOR
  }

  function EntryOffset(c: nat): (r: nat)
    ensures r + 4 <= SECTOR
    ensures c < LOW28 ==> r == c % ENTRIES * 4
  {
    c * 4 % 0x1_0000_0000 % SECTOR
  }

  /** The two copies of sector k are equal. */
  predicate CopyAgrees(sec: seq<Sector>, k: nat, spf: nat)
    requires k + spf < |sec|
  {
    sec[k + spf] == sec[k]
  }

  /** A sector that is in no dirty slot has its second copy equal to the first. */
  ghost predicate Mirrored(s: seq<Slot>, sec: seq<Sector>, start: nat, spf: nat)
    requires start + 2 * spf <= |sec|
  {
    forall k {:trigger CopyAgrees(sec, k, spf)} ::
      start <= k < start + spf && (forall i :: 0 <= i < |s| && s[i].cur == k ==> !s[i].dirty) ==>
        CopyAgrees(sec, k, spf)
  }

  /** The first copy of the table. */
  ghost function Region(start: nat, spf: nat): set<nat> {
    set k: nat | k < start + spf && Cache.Inside(k, start, spf)
  }

  /** The sectors the buffer can come to hold: those of the table, and where the device is large enough the one
      that entry 0xffffffff would lie in. */
  ghost function Domain(start: nat, spf: nat, size: nat): set<nat> {
    set k: nat | k < size && Buffered(k, start, spf)
  }

  predicate Buffered(k: nat, start: nat, spf: nat) {
    Cache.Inside(k, start, spf) || k == start + WILD
  }

  lemma SameMirror(s: seq<Slot>, t: seq<Slot>, sec: seq<Sector>, start: nat, spf: nat)
    requires start + 2 * spf <= |sec| && Mirrored(s, sec, start, spf)
    requires |s| == |t| && forall i :: 0 <= i < |s| ==> t[i].cur == s[i].cur && (s[i].dirty ==> t[i].dirty)
    ensures Mirrored(t, sec, start, spf)
  {
  }

  /** Entry c as the buffer and the device together hold it. */
  ghost function Entry(s: seq<Slot>, sec: seq<Sector>, start: nat, c: nat): nat
    requires start + EntrySector(c) < |sec|
    requires forall i :: 0 <= i < |s| ==> |s[i].buf| == SECTOR
  {
    GetU32(Logical(s, sec, start + EntrySector(c), 1), EntryOffset(c))
  }

  /** Buffer and device hold the table fat, and the second copy lags behind only where a slot is dirty. */
  ghost predicate Tabled(s: seq<Slot>, sec: seq<Sector>, start: nat, spf: nat, fat: seq<nat>) {
    && start + 2 * spf <= |sec| && 0 < 2 * spf <= WILD && start + WILD < EMPTY
    && |fat| <= spf * ENTRIES && |fat| <= LOW28
    && SlotsOk(s, sec, Domain(start, spf, |sec|), 1)
    && Mirrored(s, sec, start, spf)
    && (forall c {:trigger Entry(s, sec, start, c)} :: 0 <= c < |fat| ==> fat[c] == Entry(s, sec, start, c))
  }

  /** The same logical sectors hold the same entries. */
  lemma EntriesStay(s: seq<Slot>, sec: seq<Sector>, t: seq<Slot>, sec': seq<Sector>, start: nat, spf: nat,
                    fat: seq<nat>)
    requires Tabled(s, sec, start, spf, fat) && |sec'| == |sec|
    requires SlotsOk(t, sec', Domain(start, spf, |sec|), 1)
    requires forall a :: a in Region(start, spf) ==> Logical(t, sec', a, 1) == Logical(s, sec, a, 1)
    ensures forall c :: 0 <= c < |fat| ==> fat[c] == Entry(t, sec', start, c)
  {
    forall c | 0 <= c < |fat| ensures Entry(t, sec', start, c) == Entry(s, sec, start, c) {
      assert start + EntrySector(c) in Region(start, spf);
    }
  }

  /** Reference bits matter to nobody. */
  lemma BitsKeepTable(s: seq<Slot>, t: seq<Slot>, sec: seq<Sector>, start: nat, spf: nat, fat: seq<nat>)
    requires Tabled(s, sec, start, spf, fat)
    requires |s| == |t| && forall i :: 0 <= i < |s| ==> t[i] == s[i] || t[i] == s[i].(ref := t[i].ref)
    ensures Tabled(t, sec, start, spf, fat)
  {
    BitsDoNotMatter(s, t, sec, Domain(start, spf, |sec|), 1);
    EntriesStay(s, sec, t, sec, start, spf, fat);
    SameMirror(s, t, sec, start, spf);
  }

  /** The write of the first copy, whole or not: the slot is still dirty. */
  lemma FirstCopy(s: seq<Slot>, sec: seq<Sector>, sec': seq<Sector>, start: nat, spf: nat, fat: seq<nat>, i: nat)
    requires Tabled(s, sec, start, spf, fat) && |sec| == |sec'|
    requires i < |s| && s[i].cur != EMPTY && s[i].dirty
    requires forall k :: 0 <= k < |sec| && k != s[i].cur ==> sec'[k] == sec[k]
    ensures Tabled(s, sec', start, spf, fat)
  {
    WrittenBack(s, sec, sec', Domain(start, spf, |sec|), 1, i, false);
    EntriesStay(s, sec, s, sec', start, spf, fat);
    forall k | start <= k < start + spf && (forall j :: 0 <= j < |s| && s[j].cur == k ==> !s[j].dirty)
      ensures CopyAgrees(sec', k, spf)
    {
      assert CopyAgrees(sec, k, spf);
    }
  }

  /** The write of the second copy, whole or not, while the slot is still dirty. */
  lemma SecondCopy(s: seq<Slot>, sec: seq<Sector>, sec': seq<Sector>, start: nat, spf: nat, fat: seq<nat>, i: nat)
    requires Tabled(s, sec, start, spf, fat) && |sec| == |sec'|
    requires i < |s| && s[i].cur != EMPTY && s[i].dirty
    requires forall k :: 0 <= k < |sec| && k != spf + s[i].cur ==> sec'[k] == sec[k]
    ensures Tabled(s, sec', start, spf, fat)
  {
    OutsideDomain(s, sec, sec', Domain(start, spf, |sec|), 1);
    EntriesStay(s, sec, s, sec', start, spf, fat);
    forall k | start <= k < start + spf && (forall j :: 0 <= j < |s| && s[j].cur == k ==> !s[j].dirty)
      ensures CopyAgrees(sec', k, spf)
    {
      assert CopyAgrees(sec, k, spf);
    }
  }

  /** With both copies written the slot may be called clean. */
  lemma BothCopies(s: seq<Slot>, sec: seq<Sector>, start: nat, spf: nat, fat: seq<nat>, i: nat)
    requires Tabled(s, sec, start, spf, fat)
    requires i < |s| && s[i].cur != EMPTY && s[i].dirty
    requires spf + s[i].cur < |sec| && sec[s[i].cur] == s[i].buf && sec[spf + s[i].cur] == s[i].buf
    ensures Tabled(s[i := s[i].(dirty := false)], sec, start, spf, fat)
  {
    var t := s[i := s[i].(dirty := false)];
    BlockOfOne(sec, s[i].cur);
    WrittenBack(s, sec, sec, Domain(start, spf, |sec|), 1, i, true);
    EntriesStay(s, sec, t, sec, start, spf, fat);
    MirrorOfBothCopies(s, sec, start, spf, i);
  }

  lemma MirrorOfBothCopies(s: seq<Slot>, sec: seq<Sector>, start: nat, spf: nat, i: nat)
    requires start + 2 * spf <= |sec| && Mirrored(s, sec, start, spf)
    requires i < |s| && spf + s[i].cur < |sec| && sec[s[i].cur] == sec[spf + s[i].cur]
    ensures Mirrored(s[i := s[i].(dirty := false)], sec, start, spf)
  {
    var t := s[i := s[i].(dirty := false)];
    forall k | start <= k < start + spf && (forall j :: 0 <= j < |t| && t[j].cur == k ==> !t[j].dirty)
      ensures CopyAgrees(sec, k, spf)
    {
      if k != s[i].cur {
        assert forall j :: 0 <= j < |s| && s[j].cur == k ==> t[j] == s[j];
      }
    }
  }

  /** A clean slot takes up another sector. */
  lemma LoadKeepsTable(s: seq<Slot>, sec: seq<Sector>, start: nat, spf: nat, fat: seq<nat>, i: nat, a: nat)
    requires Tabled(s, sec, start, spf, fat) && a in Domain(start, spf, |sec|)
    requires i < |s| && (s[i].cur == EMPTY || !s[i].dirty)
    requires forall k :: 0 <= k < |s| ==> s[k].cur != a
    ensures Tabled(s[i := Slot(Block(sec, a, 1), a, true, false)], sec, start, spf, fat)
  {
    var t := s[i := Slot(Block(sec, a, 1), a, true, false)];
    NotFound(s, a);
    Replaced(s, sec, Domain(start, spf, |sec|), 1, i, a, true);
    EntriesStay(s, sec, t, sec, start, spf, fat);
    forall k | start <= k < start + spf && (forall j :: 0 <= j < |t| && t[j].cur == k ==> !t[j].dirty)
      ensures CopyAgrees(sec, k, spf)
    {
      assert forall j :: 0 <= j < |s| && j != i ==> t[j] == s[j];
    }
  }

  /** A new value for entry c in the slot that holds its sector. */
  lemma StoreChangesEntry(s: seq<Slot>, sec: seq<Sector>, start: nat, spf: nat, fat: seq<nat>, i: nat, c: nat,
                          value: nat)
    requires Tabled(s, sec, start, spf, fat) && c < |fat| && value < 0x1_0000_0000
    requires i < |s| && s[i].cur == start + EntrySector(c)
    ensures Tabled(s[i := Slot(SetU32(s[i].buf, EntryOffset(c), value), s[i].cur, true, true)],
                   sec, start, spf, fat[c := value])
  {
    var t := s[i := Slot(SetU32(s[i].buf, EntryOffset(c), value), s[i].cur, true, true)];
    StoredInto(s, t, sec, Domain(start, spf, |sec|), 1, i);
    FindIs(s, i);
    forall d | 0 <= d < |fat|
      ensures Entry(t, sec, start, d) == fat[c := value][d]
    {
      assert start + EntrySector(d) in Region(start, spf) && fat[d] == Entry(s, sec, start, d);
      if EntrySector(d) == EntrySector(c) {
        EntryInStored(s[i].buf, c, value, d);
      }
    }
    SameMirror(s, t, sec, start, spf);
  }

  /** A new buffer in the slot that holds no sector of the table leaves the table. */
  lemma StoreBesideTable(s: seq<Slot>, sec: seq<Sector>, start: nat, spf: nat, fat: seq<nat>, i: nat, b: Sector)
    requires Tabled(s, sec, start, spf, fat) && i < |s| && s[i].cur == start + WILD
    ensures Tabled(s[i := Slot(b, s[i].cur, true, true)], sec, start, spf, fat)
  {
    var t := s[i := Slot(b, s[i].cur, true, true)];
    StoredInto(s, t, sec, Domain(start, spf, |sec|), 1, i);
    EntriesStay(s, sec, t, sec, start, spf, fat);
    SameMirror(s, t, sec, start, spf);
  }

  lemma EntryInStored(b: seq<byte>, c: nat, value: nat, d: nat)
    requires |b| == SECTOR && c < LOW28 && d < LOW28 && value < 0x1_0000_0000
    requires EntrySector(d) == EntrySector(c)
    ensures GetU32(SetU32(b, EntryOffset(c), value), EntryOffset(d)) ==
      if d == c then value else GetU32(b, EntryOffset(d))
  {
    if d == c {
      GetAfterSet(b, EntryOffset(c), value);
    } else {
      GetElsewhere(b, EntryOffset(c), value, EntryOffset(d));
    }
  }

  /** What happens on the device outside the two copies does not concern the table. */
  lemma DeviceChangedElsewhere(s: seq<Slot>, sec: seq<Sector>, sec': seq<Sector>, start: nat, spf: nat, fat: seq<nat>)
    requires Tabled(s, sec, start, spf, fat) && |sec'| == |sec| && start + WILD !in Held(s)
    requires forall k :: start <= k < start + 2 * spf ==> sec'[k] == sec[k]
    ensures Tabled(s, sec', start, spf, fat)
  {
    var domain := Domain(start, spf, |sec|);
    if start + WILD < |sec| {
      ChangedAtUnheld(s, sec, sec', domain, 1, start + WILD);
    } else {
      OutsideDomain(s, sec, sec', domain, 1);
    }
    EntriesStay(s, sec, s, sec', start, spf, fat);
    forall k | start <= k < start + spf && (forall j :: 0 <= j < |s| && s[j].cur == k ==> !s[j].dirty)
      ensures CopyAgrees(sec', k, spf)
    {
      assert CopyAgrees(sec, k, spf);
    }
  }

  /** Both copies on the device are the table fat. */
  ghost predicate TableHeld(sec: seq<Sector>, start: nat, spf: nat, fat: seq<nat>)
    requires start + 2 * spf <= |sec| && |fat| <= spf * ENTRIES && |fat| <= LOW28
  {
    && (forall k {:trigger CopyAgrees(sec, k, spf)} :: start <= k < start + spf ==> CopyAgrees(sec, k, spf))
    && (forall c :: 0 <= c < |fat| ==> fat[c] == GetU32(sec[start + EntrySector(c)], EntryOffset(c)))
  }

  lemma TableHeldFrame(sec: seq<Sector>, sec': seq<Sector>, start: nat, spf: nat, fat: seq<nat>)
    requires start + 2 * spf <= |sec| == |sec'| && |fat| <= spf * ENTRIES && |fat| <= LOW28
    requires forall k :: start <= k < start + 2 * spf ==> sec'[k] == sec[k]
    requires TableHeld(sec, start, spf, fat)
    ensures TableHeld(sec', start, spf, fat)
  {
    forall k | start <= k < start + spf ensures CopyAgrees(sec', k, spf) {
      assert CopyAgrees(sec, k, spf);
    }
  }

  /** With no slot dirty the device's two copies are the table. */
  lemma AllOnDevice(s: seq<Slot>, sec: seq<Sector>, start: nat, spf: nat, fat: seq<nat>)
    requires Tabled(s, sec, start, spf, fat)
    requires forall k :: 0 <= k < |s| ==> s[k].cur == EMPTY || !s[k].dirty
    ensures TableHeld(sec, start, spf, fat)
  {
    forall c | 0 <= c < |fat| ensures fat[c] == GetU32(sec[start + EntrySector(c)], EntryOffset(c)) {
      assert fat[c] == Entry(s, sec, start, c);
      BlockOfOne(sec, start + EntrySector(c));
    }
  }

  lemma BlockOfOne(sec: seq<Sector>, a: nat)
    requires a < |sec|
    ensures Block(sec, a, 1) == sec[a]
  {
    assert Block(sec, a + 1, 0) == [];
    assert Block(sec, a, 1) == sec[a] + Block(sec, a + 1, 0);
  }

  /** Sector b with the low 28 bits of the word at `at` replaced. */
  function Patched32(b: seq<byte>, at: nat, v: nat): (r: seq<byte>)
    requires at + 4 <= |b|
    ensures |r| == |b|
  {
    SetU32(b, at, WithLow28(GetU32(b, at), v))
  }

  lemma PatchedTwice(b: seq<byte>, at: nat, v: nat)
    requires at + 4 <= |b|
    ensures Patched32(Patched32(b, at, v), at, v) == Patched32(b, at, v)
  {
    var value := WithLow28(GetU32(b, at), v);
    GetAfterSet(b, at, value);
    assert WithLow28(value, v) == value;
  }

  /** The block of slot i is held, and by no other slot. */
  lemma HeldByOne(s: seq<Slot>, i: nat)
    requires i < |s| && AllApart(s)
    ensures s[i].cur != EMPTY ==> s[i].cur in Held(s) && forall j :: 0 <= j < |s| && j != i ==> s[j].cur != s[i].cur
  {
    if s[i].cur != EMPTY {
      HeldOnce(s, i);
    }
  }

  lemma HeldAfterLoad(s: seq<Slot>, t: seq<Slot>, i: nat)
    requires |s| == |t| && i < |s| && forall k :: 0 <= k < |s| && k != i ==> t[k] == s[k]
    ensures Held(t) <= Held(s) + {t[i].cur}
  {
    assert forall k :: 0 <= k < |s| && s[k].cur != EMPTY ==> s[k].cur in Held(s);
  }

  /** The entry of a sector that no slot holds is what the device has. */
  lemma UnheldEntry(s: seq<Slot>, sec: seq<Sector>, start: nat, fat: seq<nat>, c: nat)
    requires c < |fat| <= LOW28 && start + c / 128 < |sec| && start + c / 128 != EMPTY && start + c / 128 !in Held(s)
    requires forall i :: 0 <= i < |s| ==> |s[i].buf| == SECTOR
    requires fat[c] == Entry(s, sec, start, c)
    ensures WordAt(sec[start + c / 128], c % 128 * 4, fat[c])
  {
    NotHeld(s, start + c / 128);
    BlockOfOne(sec, start + c / 128);
  }

  /** The slot that holds a, else i. */
  function FoundOr(s: seq<Slot>, a: nat, i: nat): nat {
    if Find(s, a, 0) < |s| then Find(s, a, 0) else i
  }

  class FatBuffer {
    const slots: array<Slot>
    const disk: Disk
    const start: nat           // reserved_sectors
    const spf: nat             // num_of_sectors_per_fat
    var head: nat              // fat_clock_head
    ghost var fat: seq<nat>    // the entries as they stand, top bits included

    ghost predicate Valid()
      reads this, slots, disk
    {
      head < slots.Length && Tabled(slots[..], disk.sec, start, spf, fat)
    }

    /** No slot holds a sector that is not one of the table. */
    ghost predicate Tame()
      reads slots
    {
      start + WILD !in Held(slots[..])
    }

    /** The sectors of neither copy. */
    ghost predicate Outside(k: nat) {
      !(start <= k < start + 2 * spf)
    }

    /** Outside the two copies the device is what it was, the wild sector and its would-be copy apart unless the
        buffer was tame; a tame buffer stays so. */
    twostate predicate OnlyTable()
      reads slots, disk
    {
      && |disk.sec| == old(|disk.sec|)
      && (forall k: nat :: k < |disk.sec| && Outside(k) && k != start + WILD && k != start + WILD + spf ==>
           disk.sec[k] == old(disk.sec[k]))
      && (old(Tame()) ==> forall k: nat :: k < |disk.sec| && Outside(k) ==> disk.sec[k] == old(disk.sec[k]))
    }

    /** The wild sector as buffer and device together have it. */
    ghost function WildSector(): seq<byte>
      requires start + WILD < |disk.sec|
      reads slots, disk
    {
      Logical(slots[..], disk.sec, start + WILD, 1)
    }

    /** The slot of the wild sector is waiting to be written back. */
    ghost predicate WildIsDirty()
      reads slots
    {
      var i := Find(slots[..], start + WILD, 0);
      i < slots.Length && slots[i].dirty
    }

    /** init_fat_buf: every slot empty, over a device whose two copies of the table agree. */
    constructor (size: nat, disk: Disk, start: nat, spf: nat, ghost clusters: nat)
      requires size > 0 && start + 2 * spf <= |disk.sec| && 0 < 2 * spf <= WILD && start + WILD < EMPTY
      requires clusters <= spf * ENTRIES && clusters <= LOW28
      requires forall k {:trigger CopyAgrees(disk.sec, k, spf)} :: start <= k < start + spf ==>
        CopyAgrees(disk.sec, k, spf)
      ensures Valid() && Tame() && fresh(slots) && this.disk == disk && this.start == start && this.spf == spf
      ensures |fat| == clusters
      ensures forall c :: 0 <= c < clusters ==> fat[c] == GetU32(disk.sec[start + EntrySector(c)], EntryOffset(c))
    {
      slots := new Slot[size](_ => Slot(Zeros(1), EMPTY, false, false));
      head := 0;
      this.disk := disk;
      this.start := start;
      this.spf := spf;
      ghost var s, sec := seq(size, _ => Slot(Zeros(1), EMPTY, false, false)), disk.sec;
      fat := seq(clusters, c requires 0 <= c < clusters => Entry(s, sec, start, c));
      new;
      assert slots[..] == s;
      AllOnDevice(s, sec, start, spf, fat);
    }

    /** write_fat_sector: both copies, and only then is the slot clean. */
    method WriteFatSector(i: nat) returns (ok: bool)
      requires Valid() && i < slots.Length
      modifies slots, disk
      ensures Valid() && fat == old(fat) && |disk.sec| == old(|disk.sec|)
      ensures slots[i] == old(slots[i]).(dirty := slots[i].dirty) && (slots[i].dirty ==> old(slots[i].dirty))
      ensures ok ==> slots[i].cur == EMPTY || !slots[i].dirty
      ensures SameHolders(old(slots[..]), slots[..])
      ensures forall k :: 0 <= k < slots.Length && k != i ==> slots[k] == old(slots[k])
      ensures forall k: nat :: k < |disk.sec| && Outside(k) ==>
        (slots[i].cur == start + WILD && (k == start + WILD || k == start + WILD + spf)) ||
        disk.sec[k] == old(disk.sec[k])
      ensures ok && old(slots[i].dirty) && slots[i].cur != EMPTY ==> var a := slots[i].cur;
        a + spf < |disk.sec| && disk.sec[a] == disk.sec[a + spf] == slots[i].buf
      ensures if ok then disk.errors == old(disk.errors) else disk.errors > old(disk.errors)
    {
      ok := true;
      if slots[i].cur != EMPTY && slots[i].dirty {
        ghost var s, sec0 := slots[..], disk.sec;
        assert s[i].cur in Domain(start, spf, |sec0|);
        ok := disk.WriteBlock(slots[i].buf, slots[i].cur, 1);
        ghost var sec1 := disk.sec;
        FirstCopy(s, sec0, sec1, start, spf, fat, i);
        if !ok {
          return;
        }
        BlockOfOne(sec1, s[i].cur);
        ok := disk.WriteBlock(slots[i].buf, spf + slots[i].cur, 1);
        SecondCopy(s, sec1, disk.sec, start, spf, fat, i);
        if !ok {
          return;
        }
        BlockOfOne(disk.sec, spf + s[i].cur);
        BothCopies(s, disk.sec, start, spf, fat, i);
        slots[i] := slots[i].(dirty := false);
        assert slots[..] == s[i := s[i].(dirty := false)];
      }
    }

    /** read_fat_sector. A sector number past the end of the device makes it fail. */
    method ReadFatSector(sector: nat) returns (ok: bool, index: nat)
      requires Valid() && sector != EMPTY && (sector in Domain(start, spf, |disk.sec|) || sector >= |disk.sec|)
      modifies slots, disk, this`head
      ensures Valid() && fat == old(fat) && OnlyTable()
      ensures old(Tame()) && (!ok || sector in Region(start, spf)) ==> Tame()
      ensures ok ==> sector in Domain(start, spf, |disk.sec|) && index < slots.Length && slots[index].cur == sector
      ensures ok ==> slots[index].ref && index == FoundOr(old(slots[..]), sector, Choice(old(slots[..]), old(head)))
      ensures sector == start + WILD && sector < |disk.sec| ==> WildSector() == old(WildSector())
      ensures old(Find(slots[..], sector, 0)) < slots.Length ==> ok && disk.sec == old(disk.sec)
      ensures ok ==> disk.errors == old(disk.errors)
      ensures !ok ==> disk.errors > old(disk.errors)
    {
      ghost var s := slots[..];
      index := 0;
      while index < slots.Length && slots[index].cur != sector
        invariant 0 <= index <= slots.Length
        invariant forall k :: 0 <= k < index ==> slots[k].cur != sector
      {
        index := index + 1;
      }
      if index < slots.Length {
        FindIs(s, index);
        slots[index] := slots[index].(ref := true);
        BitsKeepTable(s, slots[..], disk.sec, start, spf, fat);
        HoldersDecide(s, slots[..], sector);
        ok := true;
        return;
      }
      NotFound(s, sector);
      ok, index := Bring(sector);
    }

    /** The part of read_fat_sector for a sector that is in no slot. */
    method Bring(sector: nat) returns (ok: bool, index: nat)
      requires Valid() && sector != EMPTY && (sector in Domain(start, spf, |disk.sec|) || sector >= |disk.sec|)
      requires forall k :: 0 <= k < slots.Length ==> slots[k].cur != sector
      modifies slots, disk, this`head
      ensures Valid() && fat == old(fat) && OnlyTable()
      ensures old(Tame()) && (!ok || sector in Region(start, spf)) ==> Tame()
      ensures ok ==> sector in Domain(start, spf, |disk.sec|) && index < slots.Length && slots[index].cur == sector
      ensures ok ==> slots[index].ref && !slots[index].dirty && index == Choice(old(slots[..]), old(head))
      ensures sector == start + WILD && sector < |disk.sec| ==> WildSector() == old(WildSector())
      ensures if ok then disk.errors == old(disk.errors) else disk.errors > old(disk.errors)
    {
      ghost var s, sec := slots[..], disk.sec;
      NotFound(s, sector);
      ok, index := Evict();
      HoldersDecide(s, slots[..], sector);
      HoldersDecide(s, slots[..], start + WILD);
      if ok {
        ok := Load(index, sector);
      }
      if sector == start + WILD && sector < |sec| {
        BlockFrame(sec, disk.sec, sector, 1);
      }
    }

    /** The victim, written back. */
    method Evict() returns (ok: bool, index: nat)
      requires Valid()
      modifies slots, disk, this`head
      ensures Valid() && OnlyTable()
      ensures index == Choice(old(slots[..]), old(head)) && head == Wrap(index, 1, slots.Length)
      ensures SweptFor(old(slots[..]), slots[..], old(head), index)
      ensures ok ==> slots[index].cur == EMPTY || !slots[index].dirty
      ensures SameHolders(old(slots[..]), slots[..])
      ensures if ok then disk.errors == old(disk.errors) else disk.errors > old(disk.errors)
    {
      ghost var s := slots[..];
      index := Pick();
      ghost var t, wild := slots[..], slots[index].cur == start + WILD;
      HeldByOne(t, index);
      HoldersDecide(s, t, 0);
      assert wild ==> !old(Tame());
      ok := WriteFatSector(index);
      SweptAndWritten(s, t, slots[..], old(head), index);
    }

    /** fs_victim for this buffer. */
    method Pick() returns (index: nat)
      requires Valid()
      modifies slots, this`head
      ensures Valid() && index < slots.Length
      ensures index == Choice(old(slots[..]), old(head)) && head == Wrap(index, 1, slots.Length)
      ensures RightVictim(old(slots[..]), old(head), index)
      ensures Passed(old(slots[..]), slots[..], old(head), FirstIdle(old(slots[..]), old(head), 0))
      ensures SameHolders(old(slots[..]), slots[..])
    {
      ghost var s := slots[..];
      index, head := Victim(slots, head);
      BitsKeepTable(s, slots[..], disk.sec, start, spf, fat);
    }

    /** read_block into a slot that may be overwritten. */
    method Load(index: nat, sector: nat) returns (ok: bool)
      requires Valid() && sector != EMPTY && (sector in Domain(start, spf, |disk.sec|) || sector >= |disk.sec|)
      requires forall k :: 0 <= k < slots.Length ==> slots[k].cur != sector
      requires index < slots.Length && (slots[index].cur == EMPTY || !slots[index].dirty)
      modifies slots, disk`errors
      ensures Valid()
      ensures old(Tame()) && (!ok || sector in Region(start, spf)) ==> Tame()
      ensures ok ==> sector in Domain(start, spf, |disk.sec|)
      ensures ok ==> slots[index].cur == sector && slots[index].buf == Block(disk.sec, sector, 1)
      ensures ok ==> slots[index].ref && !slots[index].dirty
      ensures ok ==> Find(slots[..], sector, 0) == index
      ensures !ok ==> slots[..] == old(slots[..])
      ensures if ok then disk.errors == old(disk.errors) else disk.errors > old(disk.errors)
    {
      ghost var s := slots[..];
      var data;
      ok, data := disk.ReadBlock(sector, 1);
      if ok {
        LoadKeepsTable(s, disk.sec, start, spf, fat, index, sector);
        slots[index] := Slot(data, sector, true, false);
        assert slots[..] == s[index := Slot(data, sector, true, false)];
        HeldAfterLoad(s, slots[..], index);
        FindIs(slots[..], index);
      }
    }

    lemma EntryOnDevice(c: nat)
      requires Valid() && c < |fat|
      ensures start + c / 128 < |disk.sec|
      ensures start + c / 128 !in Held(slots[..]) ==> WordAt(disk.sec[start + c / 128], c % 128 * 4, fat[c])
    {
      assert start + EntrySector(c) in Region(start, spf);
      assert fat[c] == Entry(slots[..], disk.sec, start, c);
      if start + c / 128 !in Held(slots[..]) {
        UnheldEntry(slots[..], disk.sec, start, fat, c);
      }
    }

    /** get_fat_entry_value */
    method GetEntry(c: nat) returns (ok: bool, v: nat)
      requires Valid() && c < |fat|
      modifies slots, disk, this`head
      ensures Valid() && fat == old(fat) && OnlyTable() && (old(Tame()) ==> Tame())
      ensures ok ==> v == fat[c] % 0x1000_0000
      ensures old(start + c / 128 !in Held(slots[..])) ==> WordAt(old(disk.sec[start + c / 128]), c % 128 * 4, fat[c])
      ensures if ok then disk.errors == old(disk.errors) else disk.errors > old(disk.errors)
    {
      v := 0;
      assert start + EntrySector(c) in Region(start, spf);
      EntryOnDevice(c);
      var index;
      ok, index := ReadFatSector(start + EntrySector(c));
      if ok {
        FindIs(slots[..], index);
        assert fat[c] == Entry(slots[..], disk.sec, start, c);
        v := GetU32(slots[index].buf, EntryOffset(c)) % LOW28;
      }
    }

    /** fs_modify_fat: the low 28 bits of one entry change, its top four and all other entries stay. For a number
        that has no entry, and whose entry would lie in the wild sector, that sector is patched in the buffer. */
    method ModifyEntry(c: nat, v: nat) returns (ok: bool)
      requires Valid() && (c < |fat| || EntrySector(c) == WILD)
      modifies slots, disk, this`head, this`fat
      ensures Valid() && OnlyTable()
      ensures fat == if ok && c < |fat| then old(fat)[c := WithLow28(old(fat[c]), v)] else old(fat)
      ensures ok ==> c < |fat| || start + WILD < |disk.sec|
      ensures old(Tame()) && (c < |fat| || !ok) ==> Tame()
      ensures old(WildIsDirty()) && c >= |fat| ==> ok && disk.sec == old(disk.sec)
      ensures ok && c >= |fat| ==> WildIsDirty() && WildSector() == Patched32(old(WildSector()), EntryOffset(c), v)
      ensures if ok then disk.errors == old(disk.errors) else disk.errors > old(disk.errors)
    {
      assert c < |fat| ==> start + EntrySector(c) in Region(start, spf);
      var index;
      ok, index := ReadFatSector(start + EntrySector(c));
      if ok {
        ghost var s := slots[..];
        StoreWord(index, c, v);
        HoldersDecide(s, slots[..], start + WILD);
      }
    }

    /** The end of fs_modify_fat, for the slot that holds the entry's sector. */
    method StoreWord(index: nat, c: nat, v: nat)
      requires Valid() && (c < |fat| || EntrySector(c) == WILD)
      requires index < slots.Length && slots[index].cur == start + EntrySector(c)
      modifies slots, this`fat
      ensures Valid() && SameHolders(old(slots[..]), slots[..])
      ensures fat == if c < |fat| then old(fat)[c := WithLow28(old(fat[c]), v)] else old(fat)
      ensures c >= |fat| && start + WILD < |disk.sec| ==>
        WildIsDirty() && WildSector() == Patched32(old(WildSector()), EntryOffset(c), v)
    {
      ghost var s := slots[..];
      FindIs(s, index);
      assert c < |fat| ==> fat[c] == Entry(s, disk.sec, start, c);
      var at := EntryOffset(c);
      var value := WithLow28(GetU32(slots[index].buf, at), v);
      slots[index] := Slot(SetU32(slots[index].buf, at, value), slots[index].cur, true, true);
      assert slots[..] == s[index := slots[index]];
      if c < |fat| {
        StoreChangesEntry(s, disk.sec, start, spf, fat, index, c, value);
        fat := fat[c := value];
      } else {
        StoreBesideTable(s, disk.sec, start, spf, fat, index, slots[index].buf);
        FindIs(slots[..], index);
      }
    }

    /** The part of fs_fflush that concerns the table. */
    method Flush() returns (ok: bool)
      requires Valid()
      modifies slots, disk
      ensures Valid() && fat == old(fat) && OnlyTable() && (old(Tame()) ==> Tame())
      ensures ok ==> TableHeld(disk.sec, start, spf, fat)
      ensures ok && old(WildIsDirty()) ==>
        start + WILD + spf < |disk.sec| && disk.sec[start + WILD] == disk.sec[start + WILD + spf] == old(WildSector())
      ensures if ok then disk.errors == old(disk.errors) else disk.errors > old(disk.errors)
    {
      ghost var s := slots[..];
      ghost var g := Find(s, start + WILD, 0);
      for i := 0 to slots.Length
        invariant Valid() && fat == old(fat) && OnlyTable() && SameHolders(s, slots[..])
        invariant forall k :: 0 <= k < i ==> slots[k].cur == EMPTY || !slots[k].dirty
        invariant forall k :: i <= k < slots.Length ==> slots[k] == s[k]
        invariant g < i && s[g].dirty ==>
          start + WILD + spf < |disk.sec| && disk.sec[start + WILD] == disk.sec[start + WILD + spf] == s[g].buf
        invariant disk.errors == old(disk.errors)
      {
        HeldByOne(slots[..], i);
        ok := WriteFatSector(i);
        if !ok {
          return;
        }
      }
      ok := true;
      AllOnDevice(slots[..], disk.sec, start, spf, fat);
    }
  }
}

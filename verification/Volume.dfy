/** Allocation and release of clusters in kernel/fs/fat: fs_next_free, fs_alloc and the loop of fs_rm. */
module Volume {
  import opened Bits
  import opened Device
  import opened Clock
  import opened Cache
  import opened FatTable
  import opened Chain

  const NONE: nat := 0xffff_ffff
  const FREE_COUNT: nat := 488       // FSI_Free_Count in the FSInfo sector
  const INFO: nat := 1               // the FSInfo sector
  const BACKUP_INFO: nat := 7
  const NEXT_FREE: nat := 492        // FSI_Nxt_Free

  /** Sectors to a cluster: a power of two that fits a 4k buffer. */
  predicate PowerOfTwo(spc: nat) {
    spc == 1 || spc == 2 || spc == 4 || spc == 8
  }

  /** Sector number of a data cluster (fs_dataclus2sec): c - 2 shifted left by fs_wa(spc), that is times spc,
      plus the first data sector. */
  function ClusterSector(c: nat, first: nat, spc: nat): nat
    requires c >= 2
  {
    Times(c - 2, spc) + first
  }

  /** The shift by fs_wa(spc) is that product. */
  lemma SectorByShift(c: nat, first: nat, spc: nat, w: nat)
    requires c >= 2 && spc == Size(w)
    ensures Shl(c - 2, Log(spc)) + first == ClusterSector(c, first, spc)
  {
    LogOfSize(w);
    ShiftIsProduct(c - 2, w);
    TimesIsProduct(c - 2, spc);
  }

  /** fs_sec2dataclus */
  function SectorCluster(s: nat, first: nat, spc: nat): nat
    requires s >= first && spc > 0
  {
    (s - first) / spc + 2
  }

  lemma SectorClusterRoundTrip(c: nat, first: nat, spc: nat, k: nat)
    requires c >= 2 && k < spc
    ensures SectorCluster(ClusterSector(c, first, spc) + k, first, spc) == c
  {
    TimesIsProduct(c - 2, spc);
    RemainderIs((c - 2) * spc + k, spc, c - 2, k);
  }

  /** Different clusters lie on different sectors. */
  lemma ClustersApart(c: nat, d: nat, first: nat, spc: nat)
    requires 2 <= c < d
    ensures ClusterSector(c, first, spc) + spc <= ClusterSector(d, first, spc)
  {
    TimesGrows(c - 2, d - 2, spc);
  }

  /** The first cluster from c on whose entry is zero; NONE if there is none. */
  function FirstFree(fat: seq<nat>, c: nat): (r: nat)
    requires |fat| < NONE
    ensures r == NONE || (c <= r < |fat| && Next(fat, r) == 0)
    ensures forall k :: c <= k < |fat| && k < r ==> Next(fat, k) != 0
    decreases |fat| - c
  {
    if c >= |fat| then NONE else if Next(fat, c) == 0 then c else FirstFree(fat, c + 1)
  }

  /** The cluster fs_alloc is going to take: the one after the hint, or the first free one when the hint
      is beyond the free count. The additions are of 32-bit words. */
  function Candidate(fat: seq<nat>, info: seq<byte>): nat
    requires |info| == SECTOR && |fat| < NONE
  {
    var c := (GetU32(info, NEXT_FREE) + 1) % 0x1_0000_0000;
    if c > (GetU32(info, FREE_COUNT) + 1) % 0x1_0000_0000 then FirstFree(fat, 2) else c
  }

  /** The same from the words at bytes 488, FSI_Free_Count, and 492, FSI_Nxt_Free, of the sector. */
  lemma CandidateIs(fat: seq<nat>, info: seq<byte>, free: nat, hint: nat)
    requires |info| == SECTOR && |fat| < NONE && WordAt(info, 488, free) && WordAt(info, 492, hint)
    ensures Candidate(fat, info) ==
      if (hint + 1) % 0x1_0000_0000 > (free + 1) % 0x1_0000_0000 then FirstFree(fat, 2) else (hint + 1) % 0x1_0000_0000
  {
  }

  /** A data cluster whose entry is not zero. */
  predicate Taken(fat: seq<nat>, c: nat) {
    InData(fat, c) && Next(fat, c) != 0
  }

  /** No cluster in use can be handed out again: those in use are marked, and where the hint is followed
      it does not lead to one of them. */
  ghost predicate HintSafe(fat: seq<nat>, info: seq<byte>, used: set<nat>)
    requires |info| == SECTOR && |fat| < NONE
  {
    && (forall c {:trigger c in used} :: c in used ==> Taken(fat, c))
    && (Candidate(fat, info) == NONE || (InData(fat, Candidate(fat, info)) && Candidate(fat, info) !in used))
  }

  class FatVolume {
    const disk: Disk
    const table: FatBuffer
    const first: nat           // first_data_sector
    const spc: nat             // sectors_per_cluster
    const clusters: nat        // total_data_clusters + 2: the number of entries in use
    var fsInfo: seq<byte>      // the FSInfo sector, kept in memory

    /** What init_fat_info has read off the device, whose sector numbers are 32-bit words other than EMPTY. */
    ghost predicate Attached()
      reads this, table, table.slots, disk
    {
      && table.disk == disk && table.Valid()
      && |table.fat| == clusters && 2 <= clusters < 0x0fff_ffff
      && PowerOfTwo(spc) && table.start + 2 * table.spf <= first
      && ClusterSector(clusters, first, spc) <= |disk.sec| < EMPTY
      && |fsInfo| == SECTOR
    }

    /** And the table's buffer holds sectors of the table only. */
    ghost predicate Mounted()
      reads this, table, table.slots, disk
    {
      Attached() && table.Tame()
    }

    /** There is no cluster to take, yet the entry that fs_alloc is going to mark lies on the device. */
    ghost predicate Wild()
      reads this, table, disk
    {
      && |fsInfo| == SECTOR && |table.fat| < NONE && Candidate(table.fat, fsInfo) == NONE
      && table.start + WILD < |disk.sec|
    }

    /** The candidate, if there is one, is a data cluster. */
    ghost predicate CandidateInData()
      reads this, table
    {
      && |fsInfo| == SECTOR && |table.fat| < NONE
      && (Candidate(table.fat, fsInfo) == NONE || InData(table.fat, Candidate(table.fat, fsInfo)))
    }

    ghost predicate AllTaken(used: set<nat>)
      reads table
    {
      forall c {:trigger c in used} :: c in used ==> Taken(table.fat, c)
    }

    constructor (disk: Disk, table: FatBuffer, first: nat, spc: nat, clusters: nat, fsInfo: seq<byte>)
      requires table.disk == disk && table.Valid() && table.Tame()
      requires |table.fat| == clusters && 2 <= clusters < 0x0fff_ffff
      requires PowerOfTwo(spc) && table.start + 2 * table.spf <= first
      requires ClusterSector(clusters, first, spc) <= |disk.sec| < EMPTY && |fsInfo| == SECTOR
      ensures Mounted() && this.disk == disk && this.table == table && this.fsInfo == fsInfo
      ensures this.first == first && this.spc == spc && this.clusters == clusters
    {
      this.disk := disk;
      this.table := table;
      this.first := first;
      this.spc := spc;
      this.clusters := clusters;
      this.fsInfo := fsInfo;
    }

    ghost predicate Safe(used: set<nat>)
      reads this, table
    {
      |fsInfo| == SECTOR && |table.fat| < NONE && HintSafe(table.fat, fsInfo, used)
    }

    function Sector(c: nat): nat
      requires c >= 2
    {
      ClusterSector(c, first, spc)
    }

    /** The sectors of the two table copies. */
    ghost predicate InTable(k: nat) {
      table.start <= k < table.start + 2 * table.spf
    }

    lemma SectorInRange(c: nat)
      requires Mounted() && 2 <= c < clusters
      ensures first <= Sector(c) && Sector(c) + spc <= |disk.sec| && Sector(c) != EMPTY
    {
      TimesGrows(c - 2, clusters - 2, spc);
    }

    /** fs_next_free */
    method NextFree(start: nat) returns (ok: bool, next: nat)
      requires Attached() && (table.Tame() || start >= clusters)
      modifies table.slots, disk, table`head
      ensures Attached() && OnlyTable() && table.fat == old(table.fat) && (old(table.Tame()) ==> table.Tame())
      ensures ok ==> next == FirstFree(table.fat, start)
      ensures start >= clusters ==> ok && table.slots[..] == old(table.slots[..]) && disk.sec == old(disk.sec)
      ensures if ok then disk.errors == old(disk.errors) else disk.errors > old(disk.errors)
    {
      next := NONE;
      var clus := start;
      while clus < clusters
        invariant Attached() && OnlyTable() && table.fat == old(table.fat) && (old(table.Tame()) ==> table.Tame())
        invariant FirstFree(table.fat, clus) == FirstFree(table.fat, start)
        invariant start >= clusters ==>
          clus == start && table.slots[..] == old(table.slots[..]) && disk.sec == old(disk.sec)
        invariant disk.errors == old(disk.errors)
      {
        var v;
        ok, v := table.GetEntry(clus);
        if !ok {
          return;
        }
        if v == 0 {
          next := clus;
          return;
        }
        clus := clus + 1;
      }
      ok := true;
    }

    /** Nothing on the device but the table has changed. */
    twostate predicate OnlyTable()
      reads disk, table
    {
      && |disk.sec| == old(|disk.sec|)
      && forall k :: 0 <= k < |disk.sec| && !InTable(k) ==> disk.sec[k] == old(disk.sec[k])
    }

    /** The device outside the table and outside cluster c is as before. */
    twostate predicate OnlyCluster(c: nat)
      requires c >= 2
      reads disk, table
    {
      && |disk.sec| == old(|disk.sec|)
      && forall k :: 0 <= k < |disk.sec| && !InTable(k) && !Inside(k, Sector(c), spc) ==>
        disk.sec[k] == old(disk.sec[k])
    }

    /** The table with an end mark at c; when that has not worked, perhaps the table as it was. */
    ghost predicate Marked(before: seq<nat>, c: nat, ok: bool)
      reads table
    {
      && |before| == |table.fat|
      && ((c < |before| && table.fat == Set(before, c, END_MARK)) || (!ok && table.fat == before))
    }

    /** The write that ends fs_alloc: a cluster of zeros. */
    method Erase(c: nat) returns (ok: bool)
      requires Mounted() && 2 <= c < clusters
      modifies disk
      ensures Mounted() && |disk.sec| == old(|disk.sec|)
      ensures OnlyCluster(c)
      ensures ok ==> Sector(c) + spc <= |disk.sec| && Block(disk.sec, Sector(c), spc) == Zeros(spc)
      ensures if ok then disk.errors == old(disk.errors) else disk.errors > old(disk.errors)
    {
      SectorInRange(c);
      ghost var sec := disk.sec;
      ok := disk.WriteBlock(Zeros(spc), Sector(c), spc);
      DeviceChangedElsewhere(table.slots[..], sec, disk.sec, table.start, table.spf, table.fat);
    }

    /** The entry of NONE has been patched in the buffer, where it stands in a sector that is not the table's. */
    ghost predicate Patched(before: seq<byte>)
      requires |before| == SECTOR
      reads table, table.slots, table.disk
    {
      && table.start + WILD < |table.disk.sec| && table.WildIsDirty()
      && table.WildSector() == Patched32(before, EntryOffset(NONE), END_MARK)
    }

    /** The first half of fs_alloc: choose a cluster and mark it. */
    method Mark() returns (ok: bool, clus: nat)
      requires Mounted() && CandidateInData()
      modifies table.slots, disk, table`head, table`fat
      ensures Attached() && OnlyTable()
      ensures ok ==> clus == old(Candidate(table.fat, fsInfo))
      ensures !old(Wild()) ==>
        table.Tame() && (ok ==> clus != NONE) && Marked(old(table.fat), old(Candidate(table.fat, fsInfo)), ok)
      ensures old(Wild()) ==> table.fat == old(table.fat) && (ok ==> Patched(old(table.WildSector())))
      ensures if ok then disk.errors == old(disk.errors) else disk.errors > old(disk.errors)
    {
      ghost var before := table.fat;
      clus := (GetU32(fsInfo, NEXT_FREE) + 1) % 0x1_0000_0000;
      if clus > (GetU32(fsInfo, FREE_COUNT) + 1) % 0x1_0000_0000 {
        ok, clus := MarkFirstFree();
        if !ok {
          return;
        }
        if clus < clusters {
          SetTwice(before, clus, END_MARK);
        }
      }
      ok := table.ModifyEntry(clus, END_MARK);
      if old(Wild()) && ok {
        PatchedTwice(old(table.WildSector()), EntryOffset(NONE), END_MARK);
      }
    }

    /** The branch of fs_alloc for a hint beyond the free count. */
    method MarkFirstFree() returns (ok: bool, clus: nat)
      requires Mounted()
      modifies table.slots, disk, table`head, table`fat
      ensures Attached() && OnlyTable()
      ensures ok ==> clus == old(FirstFree(table.fat, 2))
      ensures old(FirstFree(table.fat, 2)) != NONE || table.start + WILD >= |disk.sec| ==>
        table.Tame() && (ok ==> clus != NONE) && Marked(old(table.fat), old(FirstFree(table.fat, 2)), ok)
      ensures old(FirstFree(table.fat, 2)) == NONE && table.start + WILD < |disk.sec| ==>
        table.fat == old(table.fat) && (ok ==> Patched(old(table.WildSector())))
      ensures if ok then disk.errors == old(disk.errors) else disk.errors > old(disk.errors)
    {
      ok, clus := NextFree(2);
      if ok {
        ok := table.ModifyEntry(clus, END_MARK);
      }
    }

    /** The cluster after the hint, and whether fs_alloc goes there without looking. */
    function Hinted(): nat
      requires |fsInfo| == SECTOR
      reads this
    {
      (GetU32(fsInfo, NEXT_FREE) + 1) % 0x1_0000_0000
    }

    predicate HintFollowed()
      requires |fsInfo| == SECTOR
      reads this
    {
      Hinted() <= (GetU32(fsInfo, FREE_COUNT) + 1) % 0x1_0000_0000
    }

    /** What fs_alloc promises about the table and the hint. The cluster taken is the candidate; with all clusters in
        use marked it is one of them exactly when the hint is followed and leads there; and however it was chosen,
        the next one will not be. */
    twostate predicate Reserved(used: set<nat>, ok: bool, clus: nat)
      requires old(|fsInfo|) == SECTOR && old(|table.fat|) < NONE
      reads this, table
    {
      && Marked(old(table.fat), old(Candidate(table.fat, fsInfo)), ok)
      && (old(Safe(used)) ==> Safe(used))
      && (ok ==>
            && clus == old(Candidate(table.fat, fsInfo)) && InData(table.fat, clus)
            && CandidateInData() && Candidate(table.fat, fsInfo) != NONE
            && Next(table.fat, Candidate(table.fat, fsInfo)) == 0)
      && (ok && old(AllTaken(used)) ==>
           Safe(used + {clus}) && (clus in used <==> old(HintFollowed()) && old(Hinted()) in used))
    }

    /** fs_alloc up to the update of FSI_Nxt_Free. Without device errors it succeeds exactly when some
        cluster after the candidate is free. */
    method Reserve(ghost used: set<nat>) returns (ok: bool, clus: nat)
      requires Mounted() && CandidateInData()
      modifies table.slots, disk, table`head, table`fat, this`fsInfo
      ensures Attached() && OnlyTable()
      ensures !old(Wild()) ==> table.Tame() && Reserved(used, ok, clus)
      ensures HintMoved(ok, clus) && (!ok ==> fsInfo == old(fsInfo))
      ensures old(Wild()) ==> !ok && table.fat == old(table.fat)
      ensures old(Wild()) && disk.errors == old(disk.errors) ==> Patched(old(table.WildSector()))
      ensures if ok then disk.errors == old(disk.errors) else disk.errors >= old(disk.errors)
      ensures disk.errors == old(disk.errors) ==> (ok <==> Room(old(table.fat), old(Candidate(table.fat, fsInfo))))
      ensures disk.errors == old(disk.errors) && !ok ==> Exhausted(table.fat, fsInfo)
    {
      ghost var before, cand, taken := table.fat, Candidate(table.fat, fsInfo), AllTaken(used);
      ok, clus := Mark();
      MarkingKeepsSafe(before, table.fat, fsInfo, used, cand);
      if !ok {
        return;
      }
      if clus < clusters {
        NextAfterMark(before, table.fat, cand);
        MarkedIsTaken(before, cand, used);
      }
      ok := UpdateHint(clus, if taken then used + {clus} else {clus});
      if !ok && disk.errors == old(disk.errors) {
        ExhaustedAfter(before, table.fat, fsInfo, cand);
      }
    }

    /** Of the FSInfo sector nothing but bytes 492 to 495 has changed; after a success the word there is one less than
        the first free cluster from clus on. */
    twostate predicate HintMoved(ok: bool, clus: nat)
      reads this, table
    {
      && SameElsewhere(old(fsInfo), fsInfo, 492)
      && (ok ==> |fsInfo| == SECTOR && |table.fat| < NONE && FirstFree(table.fat, clus) > 0
                 && WordAt(fsInfo, 492, FirstFree(table.fat, clus) - 1))
    }

    /** The second half of fs_alloc: FSI_Nxt_Free is set to just before the next free cluster. */
    method UpdateHint(clus: nat, ghost used: set<nat>) returns (ok: bool)
      requires Attached() && (clus >= clusters || (table.Tame() && clus in used && AllTaken(used)))
      modifies table.slots, disk, table`head, this`fsInfo
      ensures Attached() && OnlyTable() && table.fat == old(table.fat) && (old(table.Tame()) ==> table.Tame())
      ensures clus >= clusters ==> !ok && table.slots[..] == old(table.slots[..]) && disk.sec == old(disk.sec)
      ensures ok ==>
        Safe(used) && Candidate(table.fat, fsInfo) < clusters && Next(table.fat, Candidate(table.fat, fsInfo)) == 0
      ensures HintMoved(ok, clus) && (!ok ==> fsInfo == old(fsInfo))
      ensures if ok then disk.errors == old(disk.errors) else disk.errors >= old(disk.errors)
      ensures disk.errors == old(disk.errors) ==> (ok <==> FirstFree(table.fat, clus) != NONE)
    {
      var next;
      ok, next := NextFree(clus);
      if ok && next < clusters {
        GetAfterSet(fsInfo, NEXT_FREE, next - 1);
        BytesStored(fsInfo, NEXT_FREE, next - 1);
        fsInfo := SetU32(fsInfo, NEXT_FREE, next - 1);
        NewHintSafe(table.fat, fsInfo, used, next);
      } else {
        ok := false;
      }
    }

    /** fs_alloc. On success the cluster returned is the candidate and blank on the device, and the hint names a free
        cluster. When there is no candidate but its entry would lie on the device, it fails and leaves a sector that is
        not the table's patched in the table's buffer. */
    method Alloc(ghost used: set<nat>) returns (ok: bool, clus: nat)
      requires Mounted() && CandidateInData()
      modifies table.slots, disk, table`head, table`fat, this`fsInfo
      ensures Attached()
      ensures var cand := old(Candidate(table.fat, fsInfo)); if cand < clusters then OnlyCluster(cand) else OnlyTable()
      ensures !old(Wild()) ==> table.Tame() && Reserved(used, ok, clus)
      ensures HintMoved(ok, clus) && (!ok && disk.errors == old(disk.errors) ==> fsInfo == old(fsInfo))
      ensures old(Wild()) ==> !ok && table.fat == old(table.fat) && fsInfo == old(fsInfo)
      ensures old(Wild()) && disk.errors == old(disk.errors) ==> Patched(old(table.WildSector()))
      ensures ok ==> Sector(clus) + spc <= |disk.sec| && Block(disk.sec, Sector(clus), spc) == Zeros(spc)
      ensures if ok then disk.errors == old(disk.errors) else disk.errors >= old(disk.errors)
      ensures disk.errors == old(disk.errors) ==> (ok <==> Room(old(table.fat), old(Candidate(table.fat, fsInfo))))
      ensures disk.errors == old(disk.errors) && !ok ==> Exhausted(table.fat, fsInfo)
    {
      ok, clus := Reserve(used);
      if ok {
        ok := Erase(clus);
      }
    }

    ghost predicate Harmless()
      reads table, disk
    {
      PatchIsHarmless(disk.sec, table.start, table.spf)
    }

    /** fs_alloc, and the table's buffer written back some time later. Without device errors the sectors outside the
        table and the candidate cluster are what they were exactly when there was a candidate, or the device is too
        small for the entry of 0xffffffff, or that entry happens to be marked and copied already. */
    method AllocThenFlush(ghost used: set<nat>) returns (ok: bool, written: bool)
      requires Mounted() && CandidateInData()
      modifies table.slots, disk, table`head, table`fat, this`fsInfo
      ensures Attached()
      ensures var cand := old(Candidate(table.fat, fsInfo));
        disk.errors == old(disk.errors) ==>
          ((if cand < clusters then OnlyCluster(cand) else OnlyTable()) <==> !old(Wild()) || old(Harmless()))
    {
      ghost var sec, wild := disk.sec, Wild();
      if wild {
        UnheldSector(table.slots[..], sec, table.start + WILD);
      }
      var clus;
      ok, clus := Alloc(used);
      written := FlushTable(sec, wild && disk.errors == old(disk.errors));
    }

    /** The second half of that: a patch waiting in the buffer shows on the device unless it is harmless. */
    method FlushTable(ghost sec: seq<Sector>, ghost patched: bool) returns (written: bool)
      requires Attached() && |disk.sec| == |sec|
      requires patched ==> table.start + WILD < |sec| && SameOutside(sec) && Patched(sec[table.start + WILD])
      modifies table.slots, disk
      ensures Attached() && (old(table.Tame()) ==> OnlyTable())
      ensures written && patched ==> (SameOutside(sec) <==> PatchIsHarmless(sec, table.start, table.spf))
      ensures if written then disk.errors == old(disk.errors) else disk.errors > old(disk.errors)
    {
      ghost var mid := disk.sec;
      written := table.Flush();
      if written && patched {
        WildWritten(sec, mid, disk.sec, table.start, table.spf);
      }
    }

    /** The device outside the table is sec. */
    ghost predicate SameOutside(sec: seq<Sector>)
      reads disk
    {
      |disk.sec| == |sec| && forall k: nat :: k < |sec| && !InTable(k) ==> disk.sec[k] == sec[k]
    }

    /** The device's own copy of the table, both times, is the table as it stands. */
    ghost predicate TableOnDevice()
      requires Mounted()
      reads this, table, table.slots, disk
    {
      TableHeld(disk.sec, table.start, table.spf, table.fat)
    }

    /** fs_fflush for the FSInfo sector, its backup and the table. */
    method Flush() returns (ok: bool)
      requires Mounted() && BACKUP_INFO < table.start
      modifies table.slots, disk
      ensures Mounted() && |disk.sec| == old(|disk.sec|)
      ensures forall k :: first <= k < |disk.sec| ==> disk.sec[k] == old(disk.sec[k])
      ensures ok ==> TableOnDevice() && disk.sec[1] == fsInfo && disk.sec[7] == fsInfo
      ensures if ok then disk.errors == old(disk.errors) else disk.errors > old(disk.errors)
    {
      ok := FlushInfo();
      if ok {
        ok := table.Flush();
      }
    }

    method FlushInfo() returns (ok: bool)
      requires Mounted() && BACKUP_INFO < table.start
      modifies disk
      ensures Mounted() && |disk.sec| == old(|disk.sec|)
      ensures forall k :: table.start <= k < |disk.sec| ==> disk.sec[k] == old(disk.sec[k])
      ensures ok ==> disk.sec[1] == fsInfo && disk.sec[7] == fsInfo
      ensures if ok then disk.errors == old(disk.errors) else disk.errors > old(disk.errors)
    {
      ghost var sec := disk.sec;
      ok := disk.WriteBlock(fsInfo, INFO, 1);
      if ok {
        BlockOfOne(disk.sec, INFO);
        ok := disk.WriteBlock(fsInfo, BACKUP_INFO, 1);
        if ok {
          BlockOfOne(disk.sec, BACKUP_INFO);
        }
      }
      DeviceChangedElsewhere(table.slots[..], sec, disk.sec, table.start, table.spf, table.fat);
    }

    /** The loop of fs_rm over the chain that starts at `start`; it ends on every table. */
    method Release(start: nat) returns (ok: bool)
      requires Mounted()
      modifies table.slots, disk, table`head, table`fat
      ensures Mounted() && OnlyTable()
      ensures ok ==> table.fat == Released(old(table.fat), start)
      ensures PartlyReleased(old(table.fat), table.fat, Released(old(table.fat), start))
      ensures if ok then disk.errors == old(disk.errors) else disk.errors > old(disk.errors)
    {
      var clus: nat := start;
      while clus != 0 && clus < clusters
        invariant Mounted() && OnlyTable()
        invariant Released(table.fat, clus) == Released(old(table.fat), start)
        invariant PartlyReleased(old(table.fat), table.fat, Released(old(table.fat), start))
        invariant disk.errors == old(disk.errors)
        decreases NonZero(table.fat), if 0 < clus < clusters then 1 else 0
      {
        NonZeroAfter(table.fat, clus, WithLow28(table.fat[clus], 0));
        ReleasedFurther(old(table.fat), table.fat, clus);
        ok, clus := ReleaseOne(clus);
        if !ok {
          return;
        }
      }
      ok := true;
    }

    /** The same loop over the chain of a file: its clusters become free, or some of them when the device fails; every
        other entry stays, and no cluster of the files left can be handed out. */
    method Remove(start: nat, ghost chain: seq<nat>, ghost used: set<nat>) returns (ok: bool)
      requires Mounted() && IsChain(table.fat, chain) && chain[0] == start
      modifies table.slots, disk, table`head, table`fat
      ensures Mounted() && OnlyTable()
      ensures old(Safe(used)) ==> Safe(used - set c | c in chain)
      ensures ok ==>
        forall c :: 0 <= c < clusters ==> Next(table.fat, c) == if c in chain then 0 else Next(old(table.fat), c)
      ensures forall c :: 0 <= c < clusters && c !in chain ==> table.fat[c] == old(table.fat[c])
      ensures if ok then disk.errors == old(disk.errors) else disk.errors > old(disk.errors)
    {
      ghost var fat := table.fat;
      ok := Release(start);
      RmFreesExactlyTheChain(fat, chain);
      ReleaseKeepsSafe(fat, table.fat, fsInfo, used, chain);
    }

    /** One round of that loop: follow the entry, then clear it. */
    method ReleaseOne(c: nat) returns (ok: bool, next: nat)
      requires Mounted() && c < clusters
      modifies table.slots, disk, table`head, table`fat
      ensures Mounted() && OnlyTable()
      ensures table.fat == if ok then Set(old(table.fat), c, 0) else old(table.fat)
      ensures ok ==> next == Next(old(table.fat), c)
      ensures if ok then disk.errors == old(disk.errors) else disk.errors > old(disk.errors)
    {
      ok, next := table.GetEntry(c);
      if ok {
        ok := table.ModifyEntry(c, 0);
      }
    }
  }

  /** Freeing the clusters of one file endangers no other. */
  lemma ReleaseKeepsSafe(fat: seq<nat>, fat': seq<nat>, info: seq<byte>, used: set<nat>, chain: seq<nat>)
    requires |info| == SECTOR && |fat'| == |fat| < NONE
    requires forall k :: 0 <= k < |fat| && k !in chain ==> fat'[k] == fat[k]
    ensures HintSafe(fat, info, used) ==> HintSafe(fat', info, used - set c | c in chain)
  {
    if HintSafe(fat, info, used) {
      forall c | c in used && c !in chain ensures Taken(fat', c) {
        assert Taken(fat, c);
      }
    }
  }

  /** fs_alloc has nothing left: no free cluster after the one the hint names, or none at all where it looks
      through the whole table. */
  ghost predicate Exhausted(fat: seq<nat>, info: seq<byte>)
    requires |info| == SECTOR && |fat| < NONE
  {
    var c := (GetU32(info, NEXT_FREE) + 1) % 0x1_0000_0000;
    if c > (GetU32(info, FREE_COUNT) + 1) % 0x1_0000_0000 then FirstFree(fat, 2) == NONE else !Room(fat, c)
  }

  /** So it is when there was no candidate, or it has been marked and nothing behind it is free. */
  lemma ExhaustedAfter(fat: seq<nat>, fat': seq<nat>, info: seq<byte>, cand: nat)
    requires |info| == SECTOR && |fat| < NONE && cand == Candidate(fat, info) && !Room(fat, cand)
    requires if cand == NONE then fat' == fat else cand < |fat| && fat' == Set(fat, cand, END_MARK)
    ensures Exhausted(fat', info)
  {
    if cand == NONE {
      return;
    }
    assert Next(fat', cand) != 0;
    assert forall k :: 0 <= k < |fat| && k != cand ==> Next(fat', k) == Next(fat, k);
    if FirstFree(fat', 2) != NONE {
      assert FirstFree(fat', 2) < cand;
    }
  }

  /** Patching the wild sector and copying it as if it were one of the table changes nothing. */
  predicate PatchIsHarmless(sec: seq<Sector>, start: nat, spf: nat) {
    && start + WILD + spf < |sec|
    && Patched32(sec[start + WILD], EntryOffset(NONE), END_MARK) == sec[start + WILD] == sec[start + WILD + spf]
  }

  lemma UnheldSector(s: seq<Slot>, sec: seq<Sector>, a: nat)
    requires a < |sec| && a != EMPTY && a !in Held(s)
    ensures Logical(s, sec, a, 1) == sec[a]
  {
    NotHeld(s, a);
    BlockOfOne(sec, a);
  }

  /** Once the patched sector has been written, twice, it shows unless the patch is harmless. */
  lemma WildWritten(sec: seq<Sector>, mid: seq<Sector>, sec': seq<Sector>, start: nat, spf: nat)
    requires |sec'| == |mid| == |sec| && 0 < 2 * spf <= WILD && start + WILD + spf < |sec|
    requires sec'[start + WILD] == sec'[start + WILD + spf] == Patched32(sec[start + WILD], EntryOffset(NONE), END_MARK)
    requires forall k: nat :: k < |sec| && !(start <= k < start + 2 * spf) ==> mid[k] == sec[k]
    requires forall k: nat :: k < |sec| && !(start <= k < start + 2 * spf) ==>
      k == start + WILD || k == start + WILD + spf || sec'[k] == mid[k]
    ensures PatchIsHarmless(sec, start, spf) <==>
      forall k: nat :: k < |sec| && !(start <= k < start + 2 * spf) ==> sec'[k] == sec[k]
  {
  }

  /** Some cluster after c is free. */
  ghost predicate Room(fat: seq<nat>, c: nat) {
    exists k :: c < k < |fat| && Next(fat, k) == 0
  }

  lemma {:induction false} FirstFreeSame(fat: seq<nat>, fat': seq<nat>, c: nat)
    requires |fat| == |fat'| < NONE && forall k :: c <= k < |fat| ==> (Next(fat, k) == 0 <==> Next(fat', k) == 0)
    ensures FirstFree(fat', c) == FirstFree(fat, c)
    decreases |fat| - c
  {
    if c >= |fat| {
    } else {
      FirstFreeSame(fat, fat', c + 1);
    }
  }

  /** A mark on the candidate takes nothing from the clusters in use. */
  lemma MarkingKeepsSafe(fat: seq<nat>, fat': seq<nat>, info: seq<byte>, used: set<nat>, cand: nat)
    requires |info| == SECTOR && |fat| < NONE && cand == Candidate(fat, info)
    requires fat' == fat || (InData(fat, cand) && fat' == Set(fat, cand, END_MARK))
    ensures HintSafe(fat, info, used) ==> HintSafe(fat', info, used)
  {
  }

  lemma MarkedIsTaken(fat: seq<nat>, cand: nat, used: set<nat>)
    requires InData(fat, cand)
    ensures Taken(Set(fat, cand, END_MARK), cand)
    ensures forall c :: c in used && Taken(fat, c) ==> Taken(Set(fat, cand, END_MARK), c)
  {
  }

  /** Behind a cluster just marked, the next free one is the first free one further on. */
  lemma NextAfterMark(fat: seq<nat>, fat': seq<nat>, cand: nat)
    requires |fat| < NONE && cand < |fat| && fat' == Set(fat, cand, END_MARK)
    ensures FirstFree(fat', cand) != cand
    ensures FirstFree(fat', cand) != NONE <==> Room(fat, cand)
  {
    var r := FirstFree(fat', cand);
    assert Next(fat', cand) != 0;
    assert forall k :: cand < k < |fat| ==> Next(fat', k) == Next(fat, k);
    if r != NONE {
      assert Next(fat, r) == 0;
    }
  }

  /** fs_alloc trusts the hint without looking at the entry: with all clusters in use marked, what it takes is a data
      cluster not in use, or nothing, exactly when the hint is beyond the free count or leads to such a cluster. */
  lemma HintMustBeTrue(fat: seq<nat>, info: seq<byte>, used: set<nat>)
    requires |info| == SECTOR && |fat| < NONE && forall c {:trigger c in used} :: c in used ==> Taken(fat, c)
    ensures var h, f := (GetU32(info, NEXT_FREE) + 1) % 0x1_0000_0000, (GetU32(info, FREE_COUNT) + 1) % 0x1_0000_0000;
      HintSafe(fat, info, used) <==> h > f || h == NONE || (InData(fat, h) && h !in used)
  {
  }

  /** A hint just before a free cluster is good. */
  lemma NewHintSafe(fat: seq<nat>, info: seq<byte>, used: set<nat>, next: nat)
    requires |info| == SECTOR && |fat| < NONE && 2 <= next < |fat| && Next(fat, next) == 0
    requires GetU32(info, NEXT_FREE) == next - 1
    requires forall c {:trigger c in used} :: c in used ==> Taken(fat, c)
    ensures HintSafe(fat, info, used) && Candidate(fat, info) < |fat| && Next(fat, Candidate(fat, info)) == 0
  {
    assert FirstFree(fat, 2) != NONE;
  }

  // ---------------------------------------------------------------- instances of what goes wrong

  /** An FSInfo sector with this hint and this count of free clusters. */
  function Info(nextFree: nat, free: nat): (r: seq<byte>)
    requires nextFree < 0x1_0000_0000 && free < 0x1_0000_0000
    ensures |r| == SECTOR && GetU32(r, NEXT_FREE) == nextFree && GetU32(r, FREE_COUNT) == free
  {
    var b := SetU32(Zeros(1), FREE_COUNT, free);
    GetAfterSet(Zeros(1), FREE_COUNT, free);
    GetAfterSet(b, NEXT_FREE, nextFree);
    GetElsewhere(b, NEXT_FREE, nextFree, FREE_COUNT);
    SetU32(b, NEXT_FREE, nextFree)
  }

  /** Cluster 2 belongs to a file and clusters 3 and 4 are free, but the hint leads to cluster 2: fs_alloc takes it,
      and succeeds, since there is room behind it. */
  lemma HintCanNameAUsedCluster()
    ensures var fat, info := [END_MARK, END_MARK, END_MARK, 0, 0], Info(1, 2);
      && Candidate(fat, info) == 2 && Taken(fat, 2) && IsChain(fat, [2]) && Room(fat, 2) && !HintSafe(fat, info, {2})
  {
    var fat := [END_MARK, END_MARK, END_MARK, 0, 0];
    assert Next(fat, 3) == 0;
  }

  /** Cluster 2 is the only free one and the hint leads there: nothing is free behind it, so fs_alloc refuses it. */
  lemma LastFreeClusterIsRefused()
    ensures var fat, info := [END_MARK, END_MARK, 0], Info(1, 1);
      Candidate(fat, info) == 2 && Next(fat, 2) == 0 && HintSafe(fat, info, {}) && !Room(fat, 2)
  {
  }

  /** fs_dataclus2sec for every 32-bit word. */
  function ClusterSector32(c: nat, first: nat, spc: nat): nat {
    ((c + 0x1_0000_0000 - 2) % 0x1_0000_0000 * spc + first) % 0x1_0000_0000
  }

  /** The hints 0xffffffff, which stands for no hint, and 0 are followed all the same: fs_alloc takes cluster 0 or 1,
      whose entry is no data cluster's, and the sectors it erases are of the second copy of the table. */
  lemma NoHintErasesTheSecondCopy(fat: seq<nat>, hint: nat, free: nat, start: nat, spf: nat, spc: nat)
    requires |fat| < NONE && free < 0x1_0000_0000 && (hint == NONE || (hint == 0 && free != NONE))
    requires PowerOfTwo(spc) && 2 * spc <= spf && start + 2 * spf < 0x1_0000_0000
    ensures var info, first := Info(hint, free), start + 2 * spf;
      var c := Candidate(fat, info);
      && c == (hint + 1) % 0x1_0000_0000 && !InData(fat, c)
      && start + spf <= ClusterSector32(c, first, spc) && ClusterSector32(c, first, spc) + spc <= first
  {
    FirstSectors(start + 2 * spf, spc);
  }

  /** Where clusters 0 and 1 would lie: just before the data. */
  lemma FirstSectors(first: nat, spc: nat)
    requires PowerOfTwo(spc) && 2 * spc <= first < 0x1_0000_0000
    ensures ClusterSector32(0, first, spc) == first - 2 * spc && ClusterSector32(1, first, spc) == first - spc
  {
    assert 0xffff_fffe * spc + first == (first - 2 * spc) + 0x1_0000_0000 * spc;
    assert 0xffff_ffff * spc + first == (first - spc) + 0x1_0000_0000 * spc;
  }

  /** When the candidate, if there is one, is a data cluster; as long as the free count does not exceed the data
      clusters there are, those two are the only hints that lead elsewhere. */
  lemma OnlyNoHintLeavesTheData(fat: seq<nat>, info: seq<byte>)
    requires |info| == SECTOR && 2 <= |fat| < NONE - 1
    ensures var hint, free := GetU32(info, NEXT_FREE), GetU32(info, FREE_COUNT);
      var cand, h := Candidate(fat, info), (hint + 1) % 0x1_0000_0000;
      && (cand == NONE || InData(fat, cand) <==> h > (free + 1) % 0x1_0000_0000 || h == NONE || 2 <= h < |fat|)
      && (free <= |fat| - 2 ==> (cand == NONE || InData(fat, cand) <==> hint != NONE && hint != 0))
  {
    var h, f := (GetU32(info, NEXT_FREE) + 1) % 0x1_0000_0000, (GetU32(info, FREE_COUNT) + 1) % 0x1_0000_0000;
    assert GetU32(info, FREE_COUNT) <= |fat| - 2 ==> f == GetU32(info, FREE_COUNT) + 1;
    assert h <= 1 <==> GetU32(info, NEXT_FREE) == NONE || GetU32(info, NEXT_FREE) == 0;
  }

  ghost function AllData(fat: seq<nat>): set<nat> {
    set c | 2 <= c < |fat| && InData(fat, c)
  }

  /** A volume of 4 GiB and a little more, every cluster in use, the hint beyond the free count. The sector that the
      entry of 0xffffffff would lie in belongs to a data cluster, and marking that entry changes it. */
  lemma FullTableOnALargeDevice()
    ensures var start, spf, spc, clusters := 32, 0x4000, 8, 0x10_0002;
      var first, fat, info := start + 2 * spf, seq(clusters, _ => END_MARK), Info(6, 0);
      var c := SectorCluster(start + WILD, first, spc);
      && clusters <= spf * ENTRIES && 2 * spf <= WILD
      && Candidate(fat, info) == NONE && HintSafe(fat, info, AllData(fat))
      && EntrySector(NONE) == WILD && EntryOffset(NONE) == SECTOR - 4
      && 2 <= c < clusters && start + WILD + spf < ClusterSector(clusters, first, spc)
      && Inside(start + WILD, ClusterSector(c, first, spc), spc)
      && Patched32(Zeros(1), EntryOffset(NONE), END_MARK) != Zeros(1)
  {
    var first, spc := 32 + 2 * 0x4000, 8;
    var c := SectorCluster(32 + WILD, first, spc);
    TimesIsProduct(c - 2, spc);
    TimesIsProduct(0x10_0002 - 2, spc);
    var b := Zeros(1);
    assert GetU32(b, SECTOR - 4) == 0;
    GetAfterSet(b, SECTOR - 4, WithLow28(0, END_MARK));
  }
}

/** The data of a file as the logical blocks of its clusters, and what the steps of reading, writing, allocating
    and closing do to it. */
module Clusters {
  import opened Bits
  import opened Device
  import opened Clock
  import opened Cache
  import opened FatTable
  import opened Chain
  import opened Volume
  import opened Image

  /** The first sectors of all data clusters. */
  ghost function DataBlocks(first: nat, spc: nat, clusters: nat): set<nat> {
    set c | 2 <= c < clusters :: ClusterSector(c, first, spc)
  }

  /** The first sectors of the clusters of a chain. */
  ghost function ChainBlocks(chain: seq<nat>, first: nat, spc: nat): set<nat>
    requires forall i :: 0 <= i < |chain| ==> chain[i] >= 2
  {
    set i | 0 <= i < |chain| :: ClusterSector(chain[i], first, spc)
  }

  lemma DataBlocksFit(first: nat, spc: nat, clusters: nat, size: nat)
    requires 2 <= clusters && ClusterSector(clusters, first, spc) <= size < EMPTY && spc > 0
    ensures Blocks(DataBlocks(first, spc, clusters), spc, size)
  {
    forall c | 2 <= c < clusters ensures ClusterSector(c, first, spc) + spc <= size {
      TimesGrows(c - 2, clusters - 2, spc);
    }
    forall a, b | a in DataBlocks(first, spc, clusters) && b in DataBlocks(first, spc, clusters) && a != b
      ensures Beside(a, b, spc)
    {
      var c :| 2 <= c < clusters && a == ClusterSector(c, first, spc);
      var d :| 2 <= d < clusters && b == ClusterSector(d, first, spc);
      if c < d {
        ClustersApart(c, d, first, spc);
      } else {
        ClustersApart(d, c, first, spc);
      }
    }
  }

  /** A sector of one cluster is not a sector of another. */
  lemma NotInBoth(c: nat, d: nat, first: nat, spc: nat, k: nat)
    requires c >= 2 && d >= 2 && c != d && Inside(k, ClusterSector(c, first, spc), spc)
    ensures !Inside(k, ClusterSector(d, first, spc), spc)
  {
    if c < d {
      ClustersApart(c, d, first, spc);
    } else {
      ClustersApart(d, c, first, spc);
    }
  }

  predicate OnDeviceAt(c: nat, first: nat, spc: nat, size: nat) {
    c >= 2 && ClusterSector(c, first, spc) + spc <= size
  }

  /** Every cluster of the chain lies on the device. */
  ghost predicate OnDevice(chain: seq<nat>, first: nat, spc: nat, size: nat) {
    forall i :: 0 <= i < |chain| ==> OnDeviceAt(chain[i], first, spc, size)
  }

  /** Sector k belongs to a cluster of the chain. */
  ghost predicate InChain(k: nat, chain: seq<nat>, first: nat, spc: nat) {
    exists i :: 0 <= i < |chain| && chain[i] >= 2 && Inside(k, ClusterSector(chain[i], first, spc), spc)
  }

  lemma ChainFits(chain: seq<nat>, first: nat, spc: nat, clusters: nat, size: nat)
    requires forall i :: 0 <= i < |chain| ==> 2 <= chain[i] < clusters
    requires clusters >= 2 && ClusterSector(clusters, first, spc) <= size
    ensures OnDevice(chain, first, spc, size)
  {
    forall i | 0 <= i < |chain| ensures ClusterSector(chain[i], first, spc) + spc <= size {
      TimesGrows(chain[i] - 2, clusters - 2, spc);
    }
  }

  /** The logical blocks of a chain. */
  ghost function Images(s: seq<Slot>, sec: seq<Sector>, chain: seq<nat>, first: nat, spc: nat): (img: seq<seq<byte>>)
    requires OnDevice(chain, first, spc, |sec|)
    requires forall i :: 0 <= i < |s| ==> |s[i].buf| == SECTOR * spc
    ensures |img| == |chain|
    ensures forall i {:trigger img[i]} :: 0 <= i < |chain| ==>
      img[i] == Logical(s, sec, ClusterSector(chain[i], first, spc), spc)
    ensures forall i {:trigger img[i]} :: 0 <= i < |chain| ==> |img[i]| == SECTOR * spc
  {
    seq(|chain|, i requires 0 <= i < |chain| => Logical(s, sec, ClusterSector(chain[i], first, spc), spc))
  }

  /** Where the bytes of a file lie on the device, once nothing of it is in the cache: byte number i * 512 * spc + q in
      the i-th cluster of its chain, and there in sector q / 512. */
  lemma BytesOnDevice(sec: seq<Sector>, chain: seq<nat>, first: nat, spc: nat, size: nat, i: nat, q: nat)
    requires OnDevice(chain, first, spc, |sec|) && size <= |chain| * (SECTOR * spc)
    requires i < |chain| && q < 512 * spc && i * (512 * spc) + q < size
    ensures chain[i] >= 2
    ensures var k := (chain[i] - 2) * spc + first + q / 512;
      && k < |sec|
      && Contents(Images([], sec, chain, first, spc), SECTOR * spc, size)[i * (512 * spc) + q] == sec[k][q % 512]
  {
    var c, cs := chain[i], 512 * spc;
    assert OnDeviceAt(c, first, spc, |sec|);
    RemainderIs(i * cs + q, cs, i, q);
    TimesIsProduct(c - 2, spc);
    ByteOfBlock(sec, ClusterSector(c, first, spc), spc, q);
    assert Images([], sec, chain, first, spc)[i] == Logical([], sec, ClusterSector(c, first, spc), spc);
  }

  /** Byte q of a run of sectors. */
  lemma {:induction false} ByteOfBlock(sec: seq<Sector>, a: nat, n: nat, q: nat)
    requires a + n <= |sec| && q < 512 * n
    ensures a + q / 512 < |sec| && Block(sec, a, n)[q] == sec[a + q / 512][q % 512]
    decreases n
  {
    if q < 512 {
    } else {
      ByteOfBlock(sec, a + 1, n - 1, q - 512);
    }
  }

  lemma NothingCached(s: seq<Slot>, sec: seq<Sector>, chain: seq<nat>, first: nat, spc: nat)
    requires OnDevice(chain, first, spc, |sec|) && |sec| < EMPTY
    requires forall i :: 0 <= i < |s| ==> |s[i].buf| == SECTOR * spc && s[i].cur == EMPTY
    ensures Images(s, sec, chain, first, spc) == Images([], sec, chain, first, spc)
  {
    forall i | 0 <= i < |chain| ensures Images(s, sec, chain, first, spc)[i] == Images([], sec, chain, first, spc)[i] {
      NotFound(s, ClusterSector(chain[i], first, spc));
    }
  }

  /** The same logical blocks give the same data. */
  lemma ImagesSame(s: seq<Slot>, sec: seq<Sector>, s': seq<Slot>, sec': seq<Sector>, chain: seq<nat>,
                   first: nat, spc: nat, clusters: nat)
    requires Blocks(DataBlocks(first, spc, clusters), spc, |sec|) && |sec'| == |sec|
    requires SlotsOk(s, sec, DataBlocks(first, spc, clusters), spc)
    requires SlotsOk(s', sec', DataBlocks(first, spc, clusters), spc)
    requires SameLogical(s, sec, s', sec', DataBlocks(first, spc, clusters), spc)
    requires (forall i :: 0 <= i < |chain| ==> 2 <= chain[i] < clusters) && OnDevice(chain, first, spc, |sec|)
    ensures Images(s', sec', chain, first, spc) == Images(s, sec, chain, first, spc)
  {
    forall i | 0 <= i < |chain|
      ensures Images(s', sec', chain, first, spc)[i] == Images(s, sec, chain, first, spc)[i]
    {
      assert ClusterSector(chain[i], first, spc) in DataBlocks(first, spc, clusters);
    }
  }

  /** Writing the table leaves the data alone. */
  lemma TableWritten(s: seq<Slot>, sec: seq<Sector>, sec': seq<Sector>, chain: seq<nat>, first: nat, spc: nat,
                     clusters: nat)
    requires Blocks(DataBlocks(first, spc, clusters), spc, |sec|) && |sec'| == |sec|
    requires SlotsOk(s, sec, DataBlocks(first, spc, clusters), spc)
    requires (forall i :: 0 <= i < |chain| ==> 2 <= chain[i] < clusters) && OnDevice(chain, first, spc, |sec|)
    requires forall k :: first <= k < |sec| ==> sec'[k] == sec[k]
    ensures SlotsOk(s, sec', DataBlocks(first, spc, clusters), spc)
    ensures Images(s, sec', chain, first, spc) == Images(s, sec, chain, first, spc)
  {
    forall a | a in DataBlocks(first, spc, clusters) ensures a >= first {
      var c :| 2 <= c < clusters && a == ClusterSector(c, first, spc);
    }
    OutsideDomain(s, sec, sec', DataBlocks(first, spc, clusters), spc);
    ImagesSame(s, sec, s, sec', chain, first, spc, clusters);
  }

  /** Writing the table and cluster c, which the chain does not have and no slot holds. */
  lemma ClusterWritten(s: seq<Slot>, sec: seq<Sector>, sec': seq<Sector>, chain: seq<nat>, first: nat, spc: nat,
                       clusters: nat,
                       c: nat)
    requires Blocks(DataBlocks(first, spc, clusters), spc, |sec|) && |sec'| == |sec|
    requires SlotsOk(s, sec, DataBlocks(first, spc, clusters), spc) && spc > 0 && 2 <= c < clusters
    requires (forall i :: 0 <= i < |chain| ==> 2 <= chain[i] < clusters) && OnDevice(chain, first, spc, |sec|)
    requires Held(s) <= ChainBlocks(chain, first, spc) && c !in chain
    requires forall k :: first <= k < |sec| && !Inside(k, ClusterSector(c, first, spc), spc) ==> sec'[k] == sec[k]
    ensures ClusterSector(c, first, spc) !in Held(s)
    ensures SlotsOk(s, sec', DataBlocks(first, spc, clusters), spc)
    ensures Images(s, sec', chain, first, spc) == Images(s, sec, chain, first, spc)
  {
    var a, domain := ClusterSector(c, first, spc), DataBlocks(first, spc, clusters);
    assert a in domain;
    forall i | 0 <= i < |chain| ensures ClusterSector(chain[i], first, spc) != a {
      NotInBoth(chain[i], c, first, spc, ClusterSector(chain[i], first, spc));
    }
    forall b, k | b in domain && b != a && b <= k < b + spc
      ensures sec'[k] == sec[k]
    {
      var d :| 2 <= d < clusters && b == ClusterSector(d, first, spc);
      NotInBoth(d, c, first, spc, k);
    }
    ChangedAtUnheld(s, sec, sec', domain, spc, a);
    forall i | 0 <= i < |chain|
      ensures Images(s, sec', chain, first, spc)[i] == Images(s, sec, chain, first, spc)[i]
    {
      assert ClusterSector(chain[i], first, spc) in domain;
    }
  }

  /** The data cache has read, evicted or cleared: the data and the table are what they were. */
  lemma CacheWorked(s: seq<Slot>, sec: seq<Sector>, s': seq<Slot>, sec': seq<Sector>, chain: seq<nat>,
                    first: nat, spc: nat, clusters: nat,
                    table: seq<Slot>, start: nat, spf: nat, fat: seq<nat>, i: nat)
    requires Blocks(DataBlocks(first, spc, clusters), spc, |sec|) && |sec'| == |sec|
    requires SlotsOk(s, sec, DataBlocks(first, spc, clusters), spc)
    requires SlotsOk(s', sec', DataBlocks(first, spc, clusters), spc)
    requires SameLogical(s, sec, s', sec', DataBlocks(first, spc, clusters), spc)
    requires (forall j :: 0 <= j < |chain| ==> 2 <= chain[j] < clusters)
    requires OnDevice(chain, first, spc, |sec|) && i < |chain|
    requires Held(s) <= ChainBlocks(chain, first, spc) && Untouched(s, sec, sec', spc)
    requires Held(s') <= Held(s) + {ClusterSector(chain[i], first, spc)}
    requires Tabled(table, sec, start, spf, fat) && start + 2 * spf <= first && start + WILD !in Held(table)
    ensures Tabled(table, sec', start, spf, fat)
    ensures Held(s') <= ChainBlocks(chain, first, spc)
    ensures Images(s', sec', chain, first, spc) == Images(s, sec, chain, first, spc)
    ensures forall k: nat :: k < |sec| && !InChain(k, chain, first, spc) ==> sec'[k] == sec[k]
  {
    HeldSectorsOnly(s, sec, sec', chain, first, spc);
    DeviceChangedElsewhere(table, sec, sec', start, spf, fat);
    ImagesSame(s, sec, s', sec', chain, first, spc, clusters);
    assert ClusterSector(chain[i], first, spc) in ChainBlocks(chain, first, spc);
  }

  /** A cluster put behind the chain adds a block to the data. */
  lemma ImagesLonger(s: seq<Slot>, sec: seq<Sector>, chain: seq<nat>, first: nat, spc: nat, c: nat)
    requires OnDevice(chain, first, spc, |sec|) && c >= 2 && ClusterSector(c, first, spc) + spc <= |sec|
    requires forall i :: 0 <= i < |s| ==> |s[i].buf| == SECTOR * spc
    ensures OnDevice(chain + [c], first, spc, |sec|)
    ensures Images(s, sec, chain, first, spc) <= Images(s, sec, chain + [c], first, spc)
    ensures ChainBlocks(chain, first, spc) <= ChainBlocks(chain + [c], first, spc)
  {
    var longer := chain + [c];
    forall i | 0 <= i < |longer|
      ensures longer[i] >= 2 && ClusterSector(longer[i], first, spc) + spc <= |sec|
    {
      assert i < |chain| ==> longer[i] == chain[i];
    }
    forall a | a in ChainBlocks(chain, first, spc) ensures a in ChainBlocks(longer, first, spc) {
      var i :| 0 <= i < |chain| && a == ClusterSector(chain[i], first, spc);
      assert longer[i] == chain[i];
    }
  }

  /** The table entry of the last cluster has been made to lead to c. */
  lemma LinkKeeps(s: seq<Slot>, sec: seq<Sector>, sec': seq<Sector>, chain: seq<nat>, first: nat, spc: nat,
                  clusters: nat,
                  fat: seq<nat>, fat': seq<nat>, c: nat)
    requires Blocks(DataBlocks(first, spc, clusters), spc, |sec|) && |sec'| == |sec|
    requires SlotsOk(s, sec, DataBlocks(first, spc, clusters), spc)
    requires |fat| == clusters <= LOW28 && IsChain(fat, chain) && OnDevice(chain, first, spc, |sec|)
    requires Held(s) <= ChainBlocks(chain, first, spc)
    requires 2 <= c < clusters && c !in chain && Next(fat, c) >= clusters && fat' == Set(fat, chain[|chain| - 1], c)
    requires ClusterSector(c, first, spc) + spc <= |sec|
    requires forall k :: first <= k < |sec| ==> sec'[k] == sec[k]
    ensures IsChain(fat', chain + [c]) && OnDevice(chain + [c], first, spc, |sec|)
    ensures SlotsOk(s, sec', DataBlocks(first, spc, clusters), spc)
    ensures Held(s) <= ChainBlocks(chain + [c], first, spc)
    ensures Images(s, sec, chain, first, spc) <= Images(s, sec', chain + [c], first, spc)
    ensures Block(sec', ClusterSector(c, first, spc), spc) == Block(sec, ClusterSector(c, first, spc), spc)
  {
    Appended(fat, chain, c, fat');
    ImagesLonger(s, sec, chain, first, spc, c);
    TableWritten(s, sec, sec', chain + [c], first, spc, clusters);
    BlockFrame(sec, sec', ClusterSector(c, first, spc), spc);
  }

  lemma TableChangedAt(others: set<nat>, fat: seq<nat>, fat': seq<nat>, sec: seq<Sector>, sec': seq<Sector>,
                       first: nat, spc: nat, last: nat, v: nat)
    requires |sec'| == |sec| && last < |fat| && (fat' == fat || fat' == Set(fat, last, v)) && last !in others
    requires forall k :: first <= k < |sec| ==> sec'[k] == sec[k]
    ensures OthersSame(others, fat, fat', sec, sec', first, spc)
  {
  }

  /** The clusters of a chain together with others. */
  ghost function InUse(chain: seq<nat>, others: set<nat>): set<nat> {
    (set c | c in chain) + others
  }

  lemma UsedLonger(chain: seq<nat>, c: nat, others: set<nat>)
    ensures InUse(chain + [c], others) == InUse(chain, others) + {c}
  {
  }

  /** Making an entry lead to another cluster leaves no cluster free or taken that was not. */
  lemma HintAfterLink(fat: seq<nat>, fat': seq<nat>, info: seq<byte>, used: set<nat>, last: nat, c: nat)
    requires |info| == SECTOR && |fat| < NONE && HintSafe(fat, info, used)
    requires last in used && last < |fat| && 0 < c < LOW28 && fat' == Set(fat, last, c)
    ensures HintSafe(fat', info, used) && Candidate(fat', info) == Candidate(fat, info)
  {
    FirstFreeSame(fat, fat', 2);
  }

  /** Cluster c's entry and sectors are the same in both states. */
  ghost predicate ClusterSame(c: nat, fat: seq<nat>, fat': seq<nat>, sec: seq<Sector>, sec': seq<Sector>, first: nat,
                              spc: nat)
    requires |sec'| == |sec| && |fat'| == |fat| && c >= 2
  {
    && (c < |fat| ==> fat'[c] == fat[c])
    && forall k: nat :: k < |sec| && Inside(k, ClusterSector(c, first, spc), spc) ==> sec'[k] == sec[k]
  }

  ghost predicate OthersSame(others: set<nat>, fat: seq<nat>, fat': seq<nat>, sec: seq<Sector>, sec': seq<Sector>,
                             first: nat, spc: nat) {
    && |sec'| == |sec| && |fat'| == |fat|
    && forall c {:trigger ClusterSame(c, fat, fat', sec, sec', first, spc)} :: c in others && c >= 2 ==>
         ClusterSame(c, fat, fat', sec, sec', first, spc)
  }

  /** fs_alloc has written the table, at the candidate at most, and the candidate's sectors, if there is one. */
  lemma AllocationKeeps(s: seq<Slot>, sec: seq<Sector>, sec': seq<Sector>, chain: seq<nat>, first: nat, spc: nat,
                        clusters: nat,
                        fat: seq<nat>, fat': seq<nat>, cand: nat, others: set<nat>)
    requires Blocks(DataBlocks(first, spc, clusters), spc, |sec|) && |sec'| == |sec|
    requires SlotsOk(s, sec, DataBlocks(first, spc, clusters), spc) && spc > 0
    requires |fat| == |fat'| == clusters && (chain == [] || IsChain(fat, chain)) && OnDevice(chain, first, spc, |sec|)
    requires Held(s) <= ChainBlocks(chain, first, spc)
    requires fat' == fat || (cand < clusters && fat' == Set(fat, cand, END_MARK))
    requires cand < clusters ==> cand >= 2 && cand !in chain && cand !in others
    requires forall k :: first <= k < |sec| ==>
      (2 <= cand < clusters && Inside(k, ClusterSector(cand, first, spc), spc)) || sec'[k] == sec[k]
    ensures chain == [] || IsChain(fat', chain)
    ensures SlotsOk(s, sec', DataBlocks(first, spc, clusters), spc)
    ensures Images(s, sec', chain, first, spc) == Images(s, sec, chain, first, spc)
    ensures OthersSame(others, fat, fat', sec, sec', first, spc)
    ensures 2 <= cand < clusters ==> ClusterSector(cand, first, spc) in DataBlocks(first, spc, clusters) - Held(s)
  {
    if chain != [] {
      ChainFrame(fat, fat', chain);
    }
    if cand < clusters {
      ClusterWritten(s, sec, sec', chain, first, spc, clusters, cand);
    } else {
      TableWritten(s, sec, sec', chain, first, spc, clusters);
    }
    forall d | d in others && d >= 2 ensures ClusterSame(d, fat, fat', sec, sec', first, spc) {
      forall k: nat | k < |sec| && Inside(k, ClusterSector(d, first, spc), spc) ensures sec'[k] == sec[k] {
        if 2 <= cand < clusters {
          NotInBoth(d, cand, first, spc, k);
        }
      }
    }
  }

  /** With every block on the device as it was in the cache, the device alone gives the data. */
  lemma AllWrittenBack(s: seq<Slot>, sec: seq<Sector>, sec': seq<Sector>, chain: seq<nat>, first: nat, spc: nat,
                       clusters: nat)
    requires Blocks(DataBlocks(first, spc, clusters), spc, |sec|) && |sec'| == |sec|
    requires SlotsOk(s, sec, DataBlocks(first, spc, clusters), spc)
    requires (forall i :: 0 <= i < |chain| ==> 2 <= chain[i] < clusters) && OnDevice(chain, first, spc, |sec|)
    requires forall a :: a in DataBlocks(first, spc, clusters) ==> Block(sec', a, spc) == Logical(s, sec, a, spc)
    ensures Images([], sec', chain, first, spc) == Images(s, sec, chain, first, spc)
  {
    forall i | 0 <= i < |chain| ensures Images([], sec', chain, first, spc)[i] == Images(s, sec, chain, first, spc)[i] {
      assert ClusterSector(chain[i], first, spc) in DataBlocks(first, spc, clusters);
    }
  }

  /** Below the data there are no clusters. */
  lemma OnlyBelowData(others: set<nat>, fat: seq<nat>, sec: seq<Sector>, sec': seq<Sector>, first: nat, spc: nat)
    requires |sec'| == |sec| && forall k :: first <= k < |sec| ==> sec'[k] == sec[k]
    ensures OthersSame(others, fat, fat, sec, sec', first, spc)
  {
  }

  lemma OthersTrans(others: set<nat>, fat0: seq<nat>, fat1: seq<nat>, fat2: seq<nat>,
                    sec0: seq<Sector>, sec1: seq<Sector>, sec2: seq<Sector>, first: nat, spc: nat)
    requires OthersSame(others, fat0, fat1, sec0, sec1, first, spc)
    requires OthersSame(others, fat1, fat2, sec1, sec2, first, spc)
    ensures OthersSame(others, fat0, fat2, sec0, sec2, first, spc)
  {
    forall c | c in others && c >= 2 ensures ClusterSame(c, fat0, fat2, sec0, sec2, first, spc) {
      assert ClusterSame(c, fat0, fat1, sec0, sec1, first, spc);
      assert ClusterSame(c, fat1, fat2, sec1, sec2, first, spc);
    }
  }

  /** What is written to the chain's clusters only does not touch the others. */
  lemma OwnAreNotOthers(others: set<nat>, chain: seq<nat>, fat0: seq<nat>, fat: seq<nat>,
                        sec0: seq<Sector>, sec: seq<Sector>, sec': seq<Sector>, first: nat, spc: nat)
    requires OthersSame(others, fat0, fat, sec0, sec, first, spc) && |sec'| == |sec|
    requires forall c :: c in others ==> c !in chain
    requires forall k: nat :: k < |sec| && !InChain(k, chain, first, spc) ==> sec'[k] == sec[k]
    ensures OthersSame(others, fat0, fat, sec0, sec', first, spc)
  {
    forall c | c in others && c >= 2 ensures ClusterSame(c, fat0, fat, sec0, sec', first, spc) {
      assert ClusterSame(c, fat0, fat, sec0, sec, first, spc);
      forall k: nat | k < |sec| && Inside(k, ClusterSector(c, first, spc), spc) ensures sec'[k] == sec[k] {
        if InChain(k, chain, first, spc) {
          var i :| 0 <= i < |chain| && chain[i] >= 2 && Inside(k, ClusterSector(chain[i], first, spc), spc);
          NotInBoth(chain[i], c, first, spc, k);
        }
      }
    }
  }

  /** Storing into the slot of the i-th cluster changes the i-th block of the data and no other. */
  lemma OneImageStored(s: seq<Slot>, s': seq<Slot>, sec: seq<Sector>, chain: seq<nat>, first: nat, spc: nat,
                       clusters: nat,
                       fat: seq<nat>, i: nat)
    requires Blocks(DataBlocks(first, spc, clusters), spc, |sec|)
    requires SlotsOk(s, sec, DataBlocks(first, spc, clusters), spc)
    requires SlotsOk(s', sec, DataBlocks(first, spc, clusters), spc)
    requires |fat| == clusters && IsChain(fat, chain) && OnDevice(chain, first, spc, |sec|) && i < |chain| && spc > 0
    requires forall a :: a in DataBlocks(first, spc, clusters) && a != ClusterSector(chain[i], first, spc) ==>
      Logical(s', sec, a, spc) == Logical(s, sec, a, spc)
    ensures forall j :: 0 <= j < |chain| && j != i ==>
      Images(s', sec, chain, first, spc)[j] == Images(s, sec, chain, first, spc)[j]
  {
    forall j | 0 <= j < |chain| && j != i
      ensures Images(s', sec, chain, first, spc)[j] == Images(s, sec, chain, first, spc)[j]
    {
      ChainIsAcyclic(fat, chain, if i < j then i else j, if i < j then j else i);
      NotInBoth(chain[i], chain[j], first, spc, ClusterSector(chain[i], first, spc));
      assert ClusterSector(chain[j], first, spc) in DataBlocks(first, spc, clusters);
    }
  }

  /** When only blocks held are written, and those are the chain's, only the chain's clusters are. */
  lemma HeldSectorsOnly(s: seq<Slot>, sec: seq<Sector>, sec': seq<Sector>, chain: seq<nat>, first: nat, spc: nat)
    requires forall i :: 0 <= i < |chain| ==> chain[i] >= 2
    requires Held(s) <= ChainBlocks(chain, first, spc) && Untouched(s, sec, sec', spc)
    ensures forall k: nat :: k < |sec| && !InChain(k, chain, first, spc) ==> sec'[k] == sec[k]
    ensures forall k: nat :: k < first && k < |sec| ==> sec'[k] == sec[k]
  {
    forall k: nat | k < |sec| && (!InChain(k, chain, first, spc) || k < first)
      ensures sec'[k] == sec[k]
    {
      forall a | a in Held(s) ensures !Inside(k, a, spc) {
        var i :| 0 <= i < |chain| && a == ClusterSector(chain[i], first, spc);
      }
    }
  }
}

/** fs_read, fs_write and fs_lseek of kernel/fs/fat/fat.c: a file is the string of bytes that its
    cluster chain holds, seen through its own cache and the table's buffer. */
module File {
  import opened Bits
  import opened Device
  import opened Cache
  import opened FatTable
  import opened Chain
  import opened Volume
  import opened Image
  import opened Clusters

  const FAILED: nat := 0xffff_ffff

  class FatFile {
    const vol: FatVolume
    const cache: BlockCache
    var start: nat             // entry.attr.starthi and startlow
    var size: nat              // entry.attr.size
    var loc: nat
    ghost var chain: seq<nat>

    /** What holds of the file between any two steps, were ch its chain. */
    ghost predicate ShapeOf(ch: seq<nat>)
      reads this`start, vol, vol.table, vol.table.slots, vol.disk, cache, cache.slots
    {
      && vol.Mounted()
      && cache.disk == vol.disk && cache.count == vol.spc && cache.slots != vol.table.slots
      && cache.domain == DataBlocks(vol.first, vol.spc, vol.clusters) && cache.Valid()
      && (if start == 0 then ch == [] else IsChain(vol.table.fat, ch) && ch[0] == start)
      && Held(cache.slots[..]) <= ChainBlocks(ch, vol.first, vol.spc)
    }

    ghost predicate Shape()
      reads this`start, this`chain, vol, vol.table, vol.table.slots, vol.disk, cache, cache.slots
    {
      ShapeOf(chain)
    }

    function ClusterBytes(): nat {
      SECTOR * vol.spc
    }

    /** The file's bytes lie in its clusters. */
    ghost predicate Sized()
      reads this`start, this`chain, this`size, vol, vol.table, vol.table.slots, vol.disk, cache, cache.slots
    {
      Shape() && size <= |chain| * ClusterBytes()
    }

    ghost predicate Valid()
      reads this, vol, vol.table, vol.table.slots, vol.disk, cache, cache.slots
    {
      Sized() && loc <= size
    }

    /** The data, cluster by cluster. */
    ghost function ImgOf(ch: seq<nat>): (img: seq<seq<byte>>)
      requires ShapeOf(ch)
      reads this`start, vol, vol.table, vol.table.slots, vol.disk, cache, cache.slots
      ensures |img| == |ch| && Shaped(img, ClusterBytes())
    {
      ChainFits(ch, vol.first, vol.spc, vol.clusters, |vol.disk.sec|);
      Images(cache.slots[..], vol.disk.sec, ch, vol.first, vol.spc)
    }

    ghost function Img(): (img: seq<seq<byte>>)
      requires Shape()
      reads this`start, this`chain, vol, vol.table, vol.table.slots, vol.disk, cache, cache.slots
      ensures |img| == |chain| && Shaped(img, ClusterBytes())
    {
      ImgOf(chain)
    }

    /** The file as a string of bytes. */
    ghost function Bytes(): seq<byte>
      requires Sized()
      reads this`start, this`chain, this`size, vol, vol.table, vol.table.slots, vol.disk, cache, cache.slots
    {
      Contents(Img(), ClusterBytes(), size)
    }

    /** A file as fs_open leaves it: nothing cached, at its beginning. */
    constructor (vol: FatVolume, start: nat, size: nat, ghost chain: seq<nat>)
      requires vol.Mounted()
      requires if start == 0 then chain == [] else IsChain(vol.table.fat, chain) && chain[0] == start
      requires size <= |chain| * (SECTOR * vol.spc)
      ensures Valid() && fresh(cache) && fresh(cache.slots) && this.vol == vol && this.chain == chain
      ensures this.start == start && this.size == size && loc == 0 && cache.slots.Length == 4
      ensures OnDevice(chain, vol.first, vol.spc, |vol.disk.sec|)
      ensures Img() == Images([], vol.disk.sec, chain, vol.first, vol.spc)
    {
      DataBlocksFit(vol.first, vol.spc, vol.clusters, |vol.disk.sec|);
      cache := new BlockCache(4, vol.spc, vol.disk, DataBlocks(vol.first, vol.spc, vol.clusters));
      this.vol := vol;
      this.start := start;
      this.size := size;
      this.loc := 0;
      this.chain := chain;
      new;
      ChainFits(chain, vol.first, vol.spc, vol.clusters, |vol.disk.sec|);
      NothingCached(cache.slots[..], vol.disk.sec, chain, vol.first, vol.spc);
    }

    /** The table entry of c, the chain's i-th cluster. */
    method Entry(c: nat, ghost i: nat) returns (ok: bool, v: nat)
      requires Shape() && i < |chain| && chain[i] == c
      modifies vol.table.slots, vol.disk, vol.table`head
      ensures Shape() && vol.OnlyTable() && vol.table.fat == old(vol.table.fat)
      ensures Img() == old(Img())
      ensures ok ==> v == Next(vol.table.fat, c)
      ensures if ok then vol.disk.errors == old(vol.disk.errors) else vol.disk.errors > old(vol.disk.errors)
    {
      ghost var s, sec := cache.slots[..], vol.disk.sec;
      ChainFits(chain, vol.first, vol.spc, vol.clusters, |sec|);
      ok, v := vol.table.GetEntry(c);
      TableWritten(s, sec, vol.disk.sec, chain, vol.first, vol.spc, vol.clusters);
    }

    /** Only sectors of this file's clusters have been written. */
    twostate predicate OnlyOwnClusters()
      reads vol.disk
    {
      && |vol.disk.sec| == old(|vol.disk.sec|)
      && forall k: nat :: k < |vol.disk.sec| && !InChain(k, old(chain), vol.first, vol.spc) ==>
           vol.disk.sec[k] == old(vol.disk.sec[k])
    }

    /** fs_read_4k for the chain's i-th cluster. */
    method Load(c: nat, ghost i: nat) returns (ok: bool, index: nat)
      requires Shape() && i < |chain| && chain[i] == c
      modifies cache.slots, cache`head, vol.disk
      ensures Shape() && OnlyOwnClusters()
      ensures Img() == old(Img())
      ensures ok ==>
        index < cache.slots.Length && cache.slots[index].cur == vol.Sector(c) && cache.slots[index].buf == Img()[i]
      ensures if ok then vol.disk.errors == old(vol.disk.errors) else vol.disk.errors > old(vol.disk.errors)
    {
      ghost var s, sec := cache.slots[..], vol.disk.sec;
      ChainFits(chain, vol.first, vol.spc, vol.clusters, |sec|);
      assert vol.Sector(c) in cache.domain;
      ok, index := cache.Read(vol.Sector(c));
      ghost var s', sec' := cache.slots[..], vol.disk.sec;
      CacheWorked(s, sec, s', sec', chain, vol.first, vol.spc, vol.clusters,
                  vol.table.slots[..], vol.table.start, vol.table.spf, vol.table.fat, i);
    }

    /** Storing a stretch of src into the i-th cluster, which slot `index` holds. */
    method Put(index: nat, ghost i: nat, from: nat, src: seq<byte>, at: nat, len: nat)
      requires Shape() && i < |chain| && index < cache.slots.Length
      requires cache.slots[index].cur == vol.Sector(chain[i]) && cache.slots[index].buf == Img()[i]
      requires from + len <= ClusterBytes() && at + len <= |src|
      modifies cache.slots
      ensures Shape()
      ensures forall j :: 0 <= j < |chain| && j != i ==> Img()[j] == old(Img())[j]
      ensures forall j :: 0 <= j < ClusterBytes() ==> Img()[i][j] == Patched(old(Img())[i], from, src, at, len, j)
    {
      ghost var s := cache.slots[..];
      ChainFits(chain, vol.first, vol.spc, vol.clusters, |vol.disk.sec|);
      cache.Store(index, from, src, at, len);
      OneImageStored(s, cache.slots[..], vol.disk.sec, chain, vol.first, vol.spc, vol.clusters, vol.table.fat, i);
    }

    /** All clusters in use: those of this file and those of the others. */
    ghost function Used(others: set<nat>): set<nat>
      reads this`chain
    {
      InUse(chain, others)
    }

    /** The file shares no cluster with the others. */
    ghost predicate ApartFrom(others: set<nat>)
      reads this`start, this`chain, vol, vol.table, vol.table.slots, vol.disk, cache, cache.slots
    {
      Shape() && forall c :: c in others ==> c !in chain
    }

    /** And no cluster in use can be handed out. */
    ghost predicate Ready(others: set<nat>)
      reads this`start, this`chain, vol, vol.table, vol.table.slots, vol.disk, cache, cache.slots
    {
      ApartFrom(others) && vol.Safe(Used(others))
    }

    /** fs_alloc takes no cluster in use, and no sector of another file is patched when there is none to take. */
    ghost predicate MayAllocate(others: set<nat>)
      reads this`chain, vol, vol.table, vol.disk
    {
      vol.Safe(Used(others)) && !vol.Wild()
    }

    /** What is good about the volume stays so: a safe hint, and on success a way to further clusters. Of the FSInfo
        sector nothing but the hint, bytes 492 to 495, changes. */
    twostate predicate HintKept(others: set<nat>, ok: bool)
      reads this`chain, vol, vol.table, vol.disk
    {
      && (old(vol.Safe(Used(others))) ==> vol.Safe(Used(others))) && (ok ==> old(vol.Wild()) || !vol.Wild())
      && SameElsewhere(old(vol.fsInfo), vol.fsInfo, 492)
    }

    /** No cluster has been taken: chain, table and FSInfo sector are what they were. */
    twostate predicate NothingTaken()
      reads this`chain, vol, vol.table
    {
      chain == old(chain) && vol.table.fat == old(vol.table.fat) && vol.fsInfo == old(vol.fsInfo)
    }

    /** Entries and sectors of the others' clusters are as they were. */
    twostate predicate OthersKept(others: set<nat>)
      reads vol.table, vol.disk
    {
      OthersSame(others, old(vol.table.fat), vol.table.fat, old(vol.disk.sec), vol.disk.sec, vol.first, vol.spc)
    }

    /** The chain has k clusters, or there is a way to more that stays clear of other files. */
    ghost predicate Reaches(k: nat, others: set<nat>)
      reads this`chain, vol, vol.table, vol.disk
    {
      k <= |chain| || MayAllocate(others)
    }

    /** fs_alloc, seen from the file: nothing it has changes. */
    method Allocate(ghost others: set<nat>) returns (ok: bool, c: nat)
      requires Ready(others) && !vol.Wild()
      modifies vol.table.slots, vol.disk, vol.table`head, vol.table`fat, vol`fsInfo
      ensures Ready(others) && Img() == old(Img()) && OthersKept(others)
      ensures SameElsewhere(old(vol.fsInfo), vol.fsInfo, 492)
      ensures ok ==> 2 <= c < vol.clusters && c !in chain && c !in others && Next(vol.table.fat, c) >= vol.clusters
      ensures ok ==> vol.Safe(Used(others) + {c}) && !vol.Wild()
      ensures ok ==> vol.Sector(c) in cache.domain && vol.Sector(c) !in Held(cache.slots[..])
      ensures ok ==> Block(vol.disk.sec, vol.Sector(c), vol.spc) == Zeros(vol.spc)
      ensures vol.disk.errors == old(vol.disk.errors) && !ok ==> Exhausted(vol.table.fat, vol.fsInfo)
      ensures if ok then vol.disk.errors == old(vol.disk.errors) else vol.disk.errors >= old(vol.disk.errors)
    {
      ghost var s, sec, fat := cache.slots[..], vol.disk.sec, vol.table.fat;
      ghost var cand := Candidate(fat, vol.fsInfo);
      ChainFits(chain, vol.first, vol.spc, vol.clusters, |sec|);
      ok, c := vol.Alloc(Used(others));
      AllocationKeeps(s, sec, vol.disk.sec, chain, vol.first, vol.spc, vol.clusters, fat, vol.table.fat, cand, others);
    }

    /** The chain's new last cluster, known to be blank, is taken into the cache (fs_clr_4k). */
    method Blank(c: nat) returns (ok: bool)
      requires Shape() && chain != [] && chain[|chain| - 1] == c && vol.Sector(c) !in Held(cache.slots[..])
      requires vol.Sector(c) + vol.spc <= |vol.disk.sec|
      requires Block(vol.disk.sec, vol.Sector(c), vol.spc) == Zeros(vol.spc)
      modifies cache.slots, cache`head, vol.disk
      ensures Shape() && OnlyOwnClusters()
      ensures Img() == old(Img())
      ensures if ok then vol.disk.errors == old(vol.disk.errors) else vol.disk.errors > old(vol.disk.errors)
    {
      ghost var s, sec := cache.slots[..], vol.disk.sec;
      ChainFits(chain, vol.first, vol.spc, vol.clusters, |sec|);
      assert vol.Sector(c) in cache.domain;
      ok := cache.Clear(vol.Sector(c));
      ghost var s', sec' := cache.slots[..], vol.disk.sec;
      CacheWorked(s, sec, s', sec', chain, vol.first, vol.spc, vol.clusters,
                  vol.table.slots[..], vol.table.start, vol.table.spf, vol.table.fat, |chain| - 1);
    }

    /** fs_modify_fat(last, c), for the chain's last cluster and a fresh one. */
    method Point(last: nat, c: nat, ghost others: set<nat>) returns (ok: bool)
      requires Shape() && chain != [] && chain[|chain| - 1] == last && last !in others
      requires 2 <= c < vol.clusters && c !in chain && vol.Safe(Used(others) + {c})
      modifies vol.table.slots, vol.disk, vol.table`head, vol.table`fat
      ensures vol.Mounted() && vol.OnlyTable() && vol.Safe(Used(others) + {c})
      ensures vol.Wild() == old(vol.Wild()) && OthersKept(others)
      ensures ok ==> vol.table.fat == Set(old(vol.table.fat), last, c)
      ensures !ok ==> Shape() && Img() == old(Img())
      ensures if ok then vol.disk.errors == old(vol.disk.errors) else vol.disk.errors > old(vol.disk.errors)
    {
      ghost var s, sec, fat := cache.slots[..], vol.disk.sec, vol.table.fat;
      ok := vol.table.ModifyEntry(last, c);
      TableChangedAt(others, fat, vol.table.fat, sec, vol.disk.sec, vol.first, vol.spc, last, c);
      if ok {
        HintAfterLink(fat, vol.table.fat, vol.fsInfo, Used(others) + {c}, last, c);
      } else {
        ChainFits(chain, vol.first, vol.spc, vol.clusters, |sec|);
        TableWritten(s, sec, vol.disk.sec, chain, vol.first, vol.spc, vol.clusters);
      }
    }

    /** The same, seen from the file. */
    method PointTo(last: nat, c: nat, ghost others: set<nat>) returns (ok: bool)
      requires Shape() && chain != [] && chain[|chain| - 1] == last && last !in others
      requires 2 <= c < vol.clusters && c !in chain
      requires vol.Safe(Used(others) + {c}) && Next(vol.table.fat, c) >= vol.clusters
      requires vol.Sector(c) + vol.spc <= |vol.disk.sec|
      requires Block(vol.disk.sec, vol.Sector(c), vol.spc) == Zeros(vol.spc)
      modifies vol.table.slots, vol.disk, vol.table`head, vol.table`fat
      ensures OthersKept(others) && vol.Safe(if ok then InUse(chain + [c], others) else Used(others))
      ensures vol.Wild() == old(vol.Wild())
      ensures if ok then ShapeOf(chain + [c]) && old(Img()) <= ImgOf(chain + [c]) else Shape() && old(Img()) == Img()
      ensures ok ==> Block(vol.disk.sec, vol.Sector(c), vol.spc) == Zeros(vol.spc)
      ensures if ok then vol.disk.errors == old(vol.disk.errors) else vol.disk.errors > old(vol.disk.errors)
    {
      ghost var s, sec, fat := cache.slots[..], vol.disk.sec, vol.table.fat;
      ChainFits(chain, vol.first, vol.spc, vol.clusters, |sec|);
      ok := Point(last, c, others);
      if ok {
        LinkKeeps(s, sec, vol.disk.sec, chain, vol.first, vol.spc, vol.clusters, fat, vol.table.fat, c);
        UsedLonger(chain, c, others);
      }
    }

    /** c becomes the chain's last cluster. */
    method Link(last: nat, c: nat, ghost others: set<nat>) returns (ok: bool)
      requires Ready(others) && chain != [] && chain[|chain| - 1] == last
      requires 2 <= c < vol.clusters && c !in chain && c !in others && Next(vol.table.fat, c) >= vol.clusters
      requires vol.Safe(Used(others) + {c}) && vol.Sector(c) !in Held(cache.slots[..])
      requires vol.Sector(c) + vol.spc <= |vol.disk.sec|
      requires Block(vol.disk.sec, vol.Sector(c), vol.spc) == Zeros(vol.spc)
      modifies vol.table.slots, vol.disk, vol.table`head, vol.table`fat, this`chain
      ensures Ready(others) && OthersKept(others) && vol.Wild() == old(vol.Wild())
      ensures chain == if ok then old(chain) + [c] else old(chain)
      ensures old(Img()) <= Img()
      ensures ok ==> Block(vol.disk.sec, vol.Sector(c), vol.spc) == Zeros(vol.spc)
      ensures if ok then vol.disk.errors == old(vol.disk.errors) else vol.disk.errors > old(vol.disk.errors)
    {
      ok := PointTo(last, c, others);
      if ok {
        chain := chain + [c];
      }
    }

    /** The first cluster of an empty file. */
    method Begin(ghost others: set<nat>) returns (ok: bool, c: nat)
      requires Ready(others) && start == 0 && !vol.Wild()
      modifies this`start, this`chain, vol.table.slots, vol.disk, vol.table`head, vol.table`fat, vol`fsInfo,
               cache.slots, cache`head
      ensures Ready(others) && OthersKept(others) && SameElsewhere(old(vol.fsInfo), vol.fsInfo, 492)
      ensures ok ==> chain == [c] && !vol.Wild()
      ensures vol.disk.errors == old(vol.disk.errors) && !ok ==> Exhausted(vol.table.fat, vol.fsInfo)
      ensures ok ==> vol.disk.errors == old(vol.disk.errors)
    {
      ghost var fat0, sec0 := vol.table.fat, vol.disk.sec;
      ok, c := Allocate(others);
      if ok {
        UsedLonger(chain, c, others);
        start, chain := c, [c];
        ok := Settle(c, fat0, sec0, others);
      }
    }

    /** fs_clr_4k for the chain's last cluster, seen from the others. */
    method Settle(c: nat, ghost fat0: seq<nat>, ghost sec0: seq<Sector>, ghost others: set<nat>) returns (ok: bool)
      requires Ready(others) && chain != [] && chain[|chain| - 1] == c && vol.Sector(c) !in Held(cache.slots[..])
      requires vol.Sector(c) + vol.spc <= |vol.disk.sec|
      requires Block(vol.disk.sec, vol.Sector(c), vol.spc) == Zeros(vol.spc)
      requires OthersSince(others, fat0, sec0)
      modifies cache.slots, cache`head, vol.disk
      ensures Ready(others) && Img() == old(Img()) && vol.Wild() == old(vol.Wild())
      ensures OthersSince(others, fat0, sec0)
      ensures if ok then vol.disk.errors == old(vol.disk.errors) else vol.disk.errors > old(vol.disk.errors)
    {
      ghost var sec := vol.disk.sec;
      ok := Blank(c);
      OwnAreNotOthers(others, chain, fat0, vol.table.fat, sec0, sec, vol.disk.sec, vol.first, vol.spc);
    }

    /** From the chain's i-th cluster to the next one, which is allocated if there is none. */
    method Advance(c: nat, ghost i: nat, ghost others: set<nat>) returns (ok: bool, next: nat)
      requires ApartFrom(others) && i < |chain| && chain[i] == c && Reaches(i + 2, others)
      modifies this`chain, vol.table.slots, vol.disk, vol.table`head, vol.table`fat, vol`fsInfo, cache.slots, cache`head
      ensures ApartFrom(others) && OthersKept(others) && HintKept(others, ok) && old(Img()) <= Img()
      ensures ok ==> i + 1 < |chain| && chain[i + 1] == next
      ensures vol.disk.errors == old(vol.disk.errors) && !ok ==> Exhausted(vol.table.fat, vol.fsInfo)
      ensures ok ==> vol.disk.errors == old(vol.disk.errors)
      ensures vol.disk.errors == old(vol.disk.errors) && i + 1 < old(|chain|) ==> ok
      ensures i + 1 < old(|chain|) ==> NothingTaken()
    {
      ghost var fat, sec0 := vol.table.fat, vol.disk.sec;
      LastIsMarked(fat, chain, i);
      ok, next := Entry(c, i);
      ghost var sec1 := vol.disk.sec;
      TableChangedAt(others, fat, fat, sec0, sec1, vol.first, vol.spc, c, 0);
      if ok && next >= vol.clusters {
        ok, next := Extend(c, others);
        OthersTrans(others, fat, fat, vol.table.fat, sec0, sec1, vol.disk.sec, vol.first, vol.spc);
      }
    }

    /** One more cluster at the end of the chain. */
    method Extend(last: nat, ghost others: set<nat>) returns (ok: bool, c: nat)
      requires Ready(others) && chain != [] && chain[|chain| - 1] == last && !vol.Wild()
      modifies this`chain, vol.table.slots, vol.disk, vol.table`head, vol.table`fat, vol`fsInfo, cache.slots, cache`head
      ensures Ready(others) && OthersKept(others) && old(Img()) <= Img()
      ensures SameElsewhere(old(vol.fsInfo), vol.fsInfo, 492)
      ensures ok ==> chain == old(chain) + [c] && !vol.Wild()
      ensures vol.disk.errors == old(vol.disk.errors) && !ok ==> Exhausted(vol.table.fat, vol.fsInfo)
      ensures ok ==> vol.disk.errors == old(vol.disk.errors)
    {
      ghost var fat0, sec0 := vol.table.fat, vol.disk.sec;
      ok, c := Allocate(others);
      if ok {
        ghost var fat1, sec1 := vol.table.fat, vol.disk.sec;
        ok := Link(last, c, others);
        OthersTrans(others, fat0, fat1, vol.table.fat, sec0, sec1, vol.disk.sec, vol.first, vol.spc);
        if ok {
          ok := Settle(c, fat0, sec0, others);
        }
      }
    }

    /** The cluster and the byte within it where position p of the file lies. */
    method Place(p: nat) returns (clus: nat, b: nat)
      requires vol.Mounted()
      ensures p == clus * ClusterBytes() + b && b < ClusterBytes()
    {
      var cs := ClusterBytes();
      var shift := Log2(cs);
      clus, b := Shr(p, shift), And(p, cs - 1);
      assert Size(9) == 512 && Size(10) == 1024 && Size(11) == 2048 && Size(12) == 4096;
      PlaceByShift(p, cs, if vol.spc == 1 then 9 else if vol.spc == 2 then 10 else if vol.spc == 4 then 11 else 12);
    }

    /** The first part of fs_write: find the k-th cluster of the chain, allocating what is missing. */
    method Reach(k: nat, ghost others: set<nat>) returns (ok: bool, c: nat)
      requires ApartFrom(others) && Reaches(k + 1, others)
      modifies this`start, this`chain, vol.table.slots, vol.disk, vol.table`head, vol.table`fat, vol`fsInfo,
               cache.slots, cache`head
      ensures ApartFrom(others) && OthersKept(others) && HintKept(others, ok) && old(Img()) <= Img()
      ensures ok ==> k < |chain| && chain[k] == c
      ensures vol.disk.errors == old(vol.disk.errors) && !ok ==> Exhausted(vol.table.fat, vol.fsInfo)
      ensures ok ==> vol.disk.errors == old(vol.disk.errors)
      ensures vol.disk.errors == old(vol.disk.errors) && k < old(|chain|) ==> ok
      ensures k < old(|chain|) ==> NothingTaken()
    {
      ghost var img0, fat0, sec0 := Img(), vol.table.fat, vol.disk.sec;
      ok, c := true, start;
      if c == 0 {
        ok, c := Begin(others);
        if !ok {
          return;
        }
      }
      for i := 0 to k
        invariant ApartFrom(others) && HintKept(others, true)
        invariant img0 <= Img() && vol.disk.errors == old(vol.disk.errors)
        invariant OthersSince(others, fat0, sec0)
        invariant i < |chain| && chain[i] == c && old(|chain|) <= |chain| && (k < old(|chain|) ==> NothingTaken())
      {
        ok, c := Onward(c, i, others, fat0, sec0);
        if !ok {
          return;
        }
      }
      ok := true;
    }

    /** On to the next cluster, seen from where the others were. */
    method Onward(c: nat, ghost i: nat, ghost others: set<nat>, ghost fat0: seq<nat>, ghost sec0: seq<Sector>)
      returns (ok: bool, next: nat)
      requires ApartFrom(others) && i < |chain| && chain[i] == c && Reaches(i + 2, others)
      requires OthersSince(others, fat0, sec0)
      modifies this`chain, vol.table.slots, vol.disk, vol.table`head, vol.table`fat, vol`fsInfo, cache.slots, cache`head
      ensures ApartFrom(others) && HintKept(others, ok) && old(Img()) <= Img() && OthersSince(others, fat0, sec0)
      ensures ok ==> i + 1 < |chain| && chain[i + 1] == next
      ensures vol.disk.errors == old(vol.disk.errors) && !ok ==> Exhausted(vol.table.fat, vol.fsInfo)
      ensures ok ==> vol.disk.errors == old(vol.disk.errors)
      ensures vol.disk.errors == old(vol.disk.errors) && i + 1 < old(|chain|) ==> ok
      ensures i + 1 < old(|chain|) ==> NothingTaken()
    {
      ghost var fat1, sec1 := vol.table.fat, vol.disk.sec;
      ok, next := Advance(c, i, others);
      OthersTrans(others, fat0, fat1, vol.table.fat, sec0, sec1, vol.disk.sec, vol.first, vol.spc);
    }

    /** fs_read_4k and the copying loop of fs_write for the chain's i-th cluster. */
    method StoreIn(c: nat, ghost i: nat, from: nat, src: seq<byte>, at: nat, len: nat,
                   ghost others: set<nat>) returns (ok: bool)
      requires ApartFrom(others) && i < |chain| && chain[i] == c
      requires from + len <= ClusterBytes() && at + len <= |src|
      modifies vol.disk, cache.slots, cache`head
      ensures ApartFrom(others) && OthersKept(others) && HintKept(others, ok)
      ensures forall j :: 0 <= j < |chain| && j != i ==> Img()[j] == old(Img())[j]
      ensures ok ==>
        forall j :: 0 <= j < ClusterBytes() ==> Img()[i][j] == Patched(old(Img())[i], from, src, at, len, j)
      ensures !ok ==> Img() == old(Img())
      ensures if ok then vol.disk.errors == old(vol.disk.errors) else vol.disk.errors > old(vol.disk.errors)
    {
      ghost var fat, sec := vol.table.fat, vol.disk.sec;
      var index;
      ok, index := Load(c, i);
      OwnAreNotOthers(others, chain, fat, fat, sec, sec, vol.disk.sec, vol.first, vol.spc);
      if ok {
        Put(index, i, from, src, at, len);
      }
    }

    /** The second part of fs_write: cluster by cluster from byte `from` of the k-th one to byte `end` of the
        last-th one. n counts the bytes that got there. */
    method Fill(c: nat, k: nat, from: nat, last: nat, end: nat, src: seq<byte>, count: nat,
                ghost others: set<nat>, ghost lo: nat, ghost img: seq<seq<byte>>)
      returns (ok: bool, ghost n: nat)
      requires ApartFrom(others) && k < |chain| && chain[k] == c && k <= last && Reaches(last + 1, others)
      requires from < ClusterBytes() && end < ClusterBytes() && 0 < count <= |src|
      requires k * ClusterBytes() + from == lo && last * ClusterBytes() + end + 1 == lo + count
      requires Shaped(img, ClusterBytes()) && img <= Img()
      modifies this`chain, vol.table.slots, vol.disk, vol.table`head, vol.table`fat, vol`fsInfo, cache.slots, cache`head
      ensures ApartFrom(others) && OthersKept(others) && HintKept(others, ok)
      ensures n <= count && Stored(img, lo, src, n)
      ensures vol.disk.errors == old(vol.disk.errors) && !ok ==> Exhausted(vol.table.fat, vol.fsInfo)
      ensures ok ==> n == count && vol.disk.errors == old(vol.disk.errors)
      ensures vol.disk.errors == old(vol.disk.errors) && last < old(|chain|) ==> ok
      ensures last < old(|chain|) ==> NothingTaken()
    {
      var clus, j, first, cc := c, k, from, 0;
      ghost var cs, fat0, sec0 := ClusterBytes(), vol.table.fat, vol.disk.sec;
      n := 0;
      RunInBlocks(k, from, last, end, cs, |chain|);
      NothingWritten(img, Img(), cs, lo, src);
      while j <= last
        invariant ApartFrom(others) && HintKept(others, true) && OthersSince(others, fat0, sec0)
        invariant j <= last && j < |chain| && chain[j] == clus && old(|chain|) <= |chain|
        invariant last < old(|chain|) ==> NothingTaken()
        invariant first < cs && j * cs + first == lo + cc && cc < count && n == cc
        invariant Stored(img, lo, src, n) && vol.disk.errors == old(vol.disk.errors)
      {
        var len := if j == last then end + 1 - first else ClusterBytes() - first;
        ok, clus, n := FillOne(clus, j, first, last, end, src, cc, count, others, fat0, sec0, lo, img);
        if !ok || j == last {
          return;
        }
        cc, j, first := cc + len, j + 1, 0;
      }
    }

    /** What has been stored of src so far. */
    ghost predicate Stored(img: seq<seq<byte>>, lo: nat, src: seq<byte>, n: nat)
      requires Shape()
      reads this`start, this`chain, vol, vol.table, vol.table.slots, vol.disk, cache, cache.slots
    {
      && Shaped(img, ClusterBytes()) && |img| <= |Img()| && n <= |src| && lo + n <= |Img()| * ClusterBytes()
      && Written(img, Img(), ClusterBytes(), lo, src, n)
    }

    /** The others' entries and sectors are as in that table and on that device. */
    ghost predicate OthersSince(others: set<nat>, fat0: seq<nat>, sec0: seq<Sector>)
      reads vol.table, vol.disk
    {
      OthersSame(others, fat0, vol.table.fat, sec0, vol.disk.sec, vol.first, vol.spc)
    }

    /** One round of the loop: a stretch of the j-th cluster, and on to the next one unless it is the last. */
    method FillOne(c: nat, j: nat, first: nat, last: nat, end: nat, src: seq<byte>, cc: nat, count: nat,
                   ghost others: set<nat>, ghost fat0: seq<nat>, ghost sec0: seq<Sector>, ghost lo: nat,
                   ghost img: seq<seq<byte>>)
      returns (ok: bool, next: nat, ghost n: nat)
      requires ApartFrom(others) && OthersSince(others, fat0, sec0) && Reaches(last + 1, others)
      requires j < |chain| && chain[j] == c && j <= last && first < ClusterBytes() && end < ClusterBytes()
      requires cc < count <= |src| && j * ClusterBytes() + first == lo + cc
      requires last * ClusterBytes() + end + 1 == lo + count && Stored(img, lo, src, cc)
      modifies this`chain, vol.table.slots, vol.disk, vol.table`head, vol.table`fat, vol`fsInfo, cache.slots, cache`head
      ensures ApartFrom(others) && HintKept(others, ok) && OthersSince(others, fat0, sec0)
      ensures old(|chain|) <= |chain| && n <= count && Stored(img, lo, src, n)
      ensures ok ==> n == cc + if j == last then end + 1 - first else ClusterBytes() - first
      ensures ok && j == last ==> n == count
      ensures ok && j < last ==>
        j + 1 < |chain| && chain[j + 1] == next && (j + 1) * ClusterBytes() == lo + n && n < count
      ensures vol.disk.errors == old(vol.disk.errors) && !ok ==> Exhausted(vol.table.fat, vol.fsInfo)
      ensures ok ==> vol.disk.errors == old(vol.disk.errors)
      ensures vol.disk.errors == old(vol.disk.errors) && last < old(|chain|) ==> ok
      ensures last < old(|chain|) ==> NothingTaken()
    {
      NextStretch(j, first, last, end, ClusterBytes(), lo, cc, count);
      var len := if j == last then end + 1 - first else ClusterBytes() - first;
      n, next := cc, c;
      ok := Stretch(c, j, first, src, cc, len, others, fat0, sec0, lo, img);
      if ok {
        n := cc + len;
        if j < last {
          ok, next := NextCluster(c, j, others, fat0, sec0, lo, src, n, img);
        }
      }
    }

    /** One cluster of the loop. */
    method Stretch(c: nat, ghost k: nat, from: nat, src: seq<byte>, at: nat, len: nat,
                   ghost others: set<nat>, ghost fat0: seq<nat>, ghost sec0: seq<Sector>, ghost lo: nat,
                   ghost img: seq<seq<byte>>)
      returns (ok: bool)
      requires ApartFrom(others) && k < |chain| && chain[k] == c
      requires OthersSince(others, fat0, sec0) && Stored(img, lo, src, at)
      requires from + len <= ClusterBytes() && at + len <= |src| && k * ClusterBytes() + from == lo + at
      modifies vol.disk, cache.slots, cache`head
      ensures ApartFrom(others) && HintKept(others, true) && OthersSince(others, fat0, sec0)
      ensures Stored(img, lo, src, if ok then at + len else at) && (!ok ==> Img() == old(Img()))
      ensures if ok then vol.disk.errors == old(vol.disk.errors) else vol.disk.errors > old(vol.disk.errors)
    {
      ghost var mid, fat1, sec1 := Img(), vol.table.fat, vol.disk.sec;
      ok := StoreIn(c, k, from, src, at, len, others);
      OthersTrans(others, fat0, fat1, vol.table.fat, sec0, sec1, vol.disk.sec, vol.first, vol.spc);
      if ok {
        WrittenFurther(img, mid, Img(), ClusterBytes(), lo, src, at, k, from, len);
      }
    }

    /** On to the next cluster; what has been written stays written. */
    method NextCluster(c: nat, ghost k: nat, ghost others: set<nat>, ghost fat0: seq<nat>, ghost sec0: seq<Sector>,
                       ghost lo: nat, ghost src: seq<byte>, ghost n: nat, ghost img: seq<seq<byte>>)
      returns (ok: bool, next: nat)
      requires ApartFrom(others) && k < |chain| && chain[k] == c && Reaches(k + 2, others)
      requires OthersSince(others, fat0, sec0) && Stored(img, lo, src, n)
      modifies this`chain, vol.table.slots, vol.disk, vol.table`head, vol.table`fat, vol`fsInfo, cache.slots, cache`head
      ensures ApartFrom(others) && HintKept(others, ok) && old(|chain|) <= |chain|
      ensures OthersSince(others, fat0, sec0) && Stored(img, lo, src, n)
      ensures ok ==> k + 1 < |chain| && chain[k + 1] == next
      ensures vol.disk.errors == old(vol.disk.errors) && !ok ==> Exhausted(vol.table.fat, vol.fsInfo)
      ensures ok ==> vol.disk.errors == old(vol.disk.errors)
      ensures vol.disk.errors == old(vol.disk.errors) && k + 1 < old(|chain|) ==> ok
      ensures k + 1 < old(|chain|) ==> NothingTaken()
    {
      ghost var mid := Img();
      ok, next := Onward(c, k, others, fat0, sec0);
      WrittenThenAppended(img, mid, Img(), ClusterBytes(), lo, src, n);
    }

    /** fs_write. On success the bytes are those before with buf[..count] written over them at loc; when it
        fails some first bytes of buf may have been written, and nothing else has changed. Without device
        errors it fails only for want of a free cluster. The volume must not be one on which an allocation
        that finds no cluster patches a sector of a file, unless none is needed. */
    method Write(buf: seq<byte>, count: nat, ghost others: set<nat>) returns (ok: bool, r: nat)
      requires ApartFrom(others) && Valid() && count <= |buf| && loc + count <= FAILED
      requires MayAllocate(others) || loc + count <= |chain| * ClusterBytes()
      modifies this, vol.table.slots, vol.disk, vol.table`head, vol.table`fat, vol`fsInfo, cache.slots, cache`head
      ensures ApartFrom(others) && Valid() && OthersKept(others) && HintKept(others, ok)
      ensures ok ==> r == count && loc == old(loc) + count && vol.disk.errors == old(vol.disk.errors)
      ensures ok ==> size == if old(loc) + count > old(size) then old(loc) + count else old(size)
      ensures ok ==> Bytes() == Overwritten(old(Bytes()), old(loc), buf[..count])
      ensures !ok ==> r == 0xffff_ffff && loc == old(loc) && size == old(size)
      ensures !ok ==> PartlyOverwritten(old(Bytes()), Bytes(), loc, buf[..count])
      ensures vol.disk.errors == old(vol.disk.errors) && !ok ==> Exhausted(vol.table.fat, vol.fsInfo)
      ensures vol.disk.errors == old(vol.disk.errors) && old(loc) + count <= old(|chain|) * ClusterBytes() ==> ok
      ensures old(loc) + count <= old(|chain|) * ClusterBytes() ==> NothingTaken()
    {
      if count == 0 {
        assert buf[..count] == [];
        NothingOverwritten(Bytes(), loc);
        return true, 0;
      }
      ok := WriteSome(buf[..count], others);
      r := if ok then count else FAILED;
    }

    /** The same for at least one byte. */
    method WriteSome(src: seq<byte>, ghost others: set<nat>) returns (ok: bool)
      requires ApartFrom(others) && Valid() && |src| > 0
      requires MayAllocate(others) || loc + |src| <= |chain| * ClusterBytes()
      modifies this, vol.table.slots, vol.disk, vol.table`head, vol.table`fat, vol`fsInfo, cache.slots, cache`head
      ensures ApartFrom(others) && Valid() && OthersKept(others) && HintKept(others, ok)
      ensures ok ==> loc == old(loc) + |src| && vol.disk.errors == old(vol.disk.errors)
      ensures ok ==> size == if loc > old(size) then loc else old(size)
      ensures ok ==> Bytes() == Overwritten(old(Bytes()), old(loc), src)
      ensures !ok ==> loc == old(loc) && size == old(size) && PartlyOverwritten(old(Bytes()), Bytes(), loc, src)
      ensures vol.disk.errors == old(vol.disk.errors) && !ok ==> Exhausted(vol.table.fat, vol.fsInfo)
      ensures vol.disk.errors == old(vol.disk.errors) && old(loc) + |src| <= old(|chain|) * ClusterBytes() ==> ok
      ensures old(loc) + |src| <= old(|chain|) * ClusterBytes() ==> NothingTaken()
    {
      ghost var img, n := Img(), 0;
      ok, n := Transfer(src, others);
      if ok {
        WrittenContents(img, Img(), ClusterBytes(), size, loc, src);
        MoveOn(|src|, others);
      } else {
        PartContents(img, Img(), ClusterBytes(), size, loc, src, n);
      }
    }

    /** The end of fs_write. */
    method MoveOn(count: nat, ghost others: set<nat>)
      requires ApartFrom(others) && Valid() && loc + count <= |chain| * ClusterBytes()
      modifies this`size, this`loc
      ensures ApartFrom(others) && Valid() && Img() == old(Img())
      ensures loc == old(loc) + count && size == if loc > old(size) then loc else old(size)
    {
      if loc + count > size {
        size := loc + count;
      }
      loc := loc + count;
    }

    /** Both parts of fs_write, up to the update of size and position. */
    method Transfer(src: seq<byte>, ghost others: set<nat>) returns (ok: bool, ghost n: nat)
      requires ApartFrom(others) && Valid() && |src| > 0
      requires MayAllocate(others) || loc + |src| <= |chain| * ClusterBytes()
      modifies this`start, this`chain, vol.table.slots, vol.disk, vol.table`head, vol.table`fat, vol`fsInfo,
               cache.slots, cache`head
      ensures ApartFrom(others) && OthersKept(others) && HintKept(others, ok)
      ensures |old(Img())| <= |Img()| && n <= |src| && loc + n <= |Img()| * ClusterBytes()
      ensures Written(old(Img()), Img(), ClusterBytes(), loc, src, n)
      ensures vol.disk.errors == old(vol.disk.errors) && !ok ==> Exhausted(vol.table.fat, vol.fsInfo)
      ensures ok ==> n == |src| && vol.disk.errors == old(vol.disk.errors)
      ensures vol.disk.errors == old(vol.disk.errors) && loc + |src| <= old(|chain|) * ClusterBytes() ==> ok
      ensures loc + |src| <= old(|chain|) * ClusterBytes() ==> NothingTaken()
    {
      ghost var img, fat0, sec0 := Img(), vol.table.fat, vol.disk.sec;
      var startClus, startByte := Place(loc);
      var endClus, endByte := Place(loc + |src| - 1);
      RunPlaces(loc, |src|, startClus, startByte, endClus, endByte, ClusterBytes(), |chain|);
      var c;
      ok, c := Reach(startClus, others);
      n := 0;
      MoreBlocks(|img|, |Img()|, ClusterBytes());
      NothingWritten(img, Img(), ClusterBytes(), loc, src);
      if ok {
        ghost var fat1, sec1 := vol.table.fat, vol.disk.sec;
        ok, n := Fill(c, startClus, startByte, endClus, endByte, src, |src|, others, loc, img);
        OthersTrans(others, fat0, fat1, vol.table.fat, sec0, sec1, vol.disk.sec, vol.first, vol.spc);
      }
    }

    /** fs_lseek */
    method Seek(newLoc: nat)
      requires Valid()
      modifies this`loc
      ensures Valid() && Bytes() == old(Bytes())
      ensures loc <= newLoc && loc <= size && (loc == newLoc || loc == size)
    {
      loc := if newLoc < size then newLoc else size;
    }

    /** fs_read: the bytes from the position on, count of them or as many as there are. */
    method Read(count: nat, ghost others: set<nat>) returns (ok: bool, data: seq<byte>)
      requires ApartFrom(others) && Valid() && loc + count <= FAILED
      modifies this`loc, vol.table.slots, vol.disk, vol.table`head, cache.slots, cache`head
      ensures ApartFrom(others) && Valid() && OthersKept(others)
      ensures vol.table.fat == old(vol.table.fat) && Bytes() == old(Bytes())
      ensures ok ==> loc == if old(loc) + count > size then size else old(loc) + count
      ensures ok ==> data == Bytes()[old(loc)..loc]
      ensures !ok ==> loc == old(loc)
      ensures if ok then vol.disk.errors == old(vol.disk.errors) else vol.disk.errors > old(vol.disk.errors)
    {
      data := [];
      if start == 0 {
        return true, [];
      }
      var n := if loc + count > size then size - loc else count;
      if n == 0 {
        return true, [];
      }
      ok, data := Collect(n, others);
      if ok {
        loc := loc + n;
      }
    }

    /** Both parts of fs_read, up to the update of the position. */
    method Collect(count: nat, ghost others: set<nat>) returns (ok: bool, data: seq<byte>)
      requires ApartFrom(others) && Sized() && start != 0 && count > 0 && loc + count <= size
      modifies vol.table.slots, vol.disk, vol.table`head, cache.slots, cache`head
      ensures ApartFrom(others) && OthersKept(others)
      ensures vol.table.fat == old(vol.table.fat) && Sized() && Bytes() == old(Bytes())
      ensures ok ==> data == Bytes()[loc..loc + count]
      ensures if ok then vol.disk.errors == old(vol.disk.errors) else vol.disk.errors > old(vol.disk.errors)
    {
      data := [];
      var startClus, startByte := Place(loc);
      var endClus, endByte := Place(loc + count - 1);
      RunPlaces(loc, count, startClus, startByte, endClus, endByte, ClusterBytes(), |chain|);
      var c;
      ok, c := Walk(startClus, others);
      if ok {
        ghost var fat, sec := vol.table.fat, vol.disk.sec;
        ok, data := Gather(c, startClus, startByte, endClus, endByte, count, others, loc);
        OthersTrans(others, fat, fat, fat, old(vol.disk.sec), sec, vol.disk.sec, vol.first, vol.spc);
      }
      if ok {
        ReadContents(Img(), ClusterBytes(), size, loc, data);
      }
    }

    /** The first part of fs_read: the k-th cluster of the chain. */
    method Walk(k: nat, ghost others: set<nat>) returns (ok: bool, c: nat)
      requires ApartFrom(others) && start != 0 && k < |chain|
      modifies vol.table.slots, vol.disk, vol.table`head
      ensures ApartFrom(others) && OthersKept(others) && vol.table.fat == old(vol.table.fat) && Img() == old(Img())
      ensures ok ==> chain[k] == c
      ensures if ok then vol.disk.errors == old(vol.disk.errors) else vol.disk.errors > old(vol.disk.errors)
    {
      ghost var img, fat, sec0 := Img(), vol.table.fat, vol.disk.sec;
      ok, c := true, start;
      for i := 0 to k
        invariant ApartFrom(others) && vol.table.fat == fat && Img() == img && vol.disk.errors == old(vol.disk.errors)
        invariant OthersSame(others, fat, vol.table.fat, sec0, vol.disk.sec, vol.first, vol.spc)
        invariant chain[i] == c
      {
        ok, c := Follow(c, i, others, sec0);
        if !ok {
          return;
        }
      }
      ok := true;
    }

    /** One table entry further. */
    method Follow(c: nat, ghost i: nat, ghost others: set<nat>, ghost sec0: seq<Sector>) returns (ok: bool, next: nat)
      requires ApartFrom(others) && i + 1 < |chain| && chain[i] == c
      requires OthersSince(others, vol.table.fat, sec0)
      modifies vol.table.slots, vol.disk, vol.table`head
      ensures ApartFrom(others) && vol.table.fat == old(vol.table.fat) && Img() == old(Img())
      ensures OthersSince(others, vol.table.fat, sec0)
      ensures ok ==> chain[i + 1] == next
      ensures if ok then vol.disk.errors == old(vol.disk.errors) else vol.disk.errors > old(vol.disk.errors)
    {
      ghost var fat, sec := vol.table.fat, vol.disk.sec;
      LastIsMarked(fat, chain, i);
      ok, next := Entry(c, i);
      TableChangedAt(others, fat, fat, sec, vol.disk.sec, vol.first, vol.spc, c, 0);
      OthersTrans(others, fat, fat, fat, sec0, sec, vol.disk.sec, vol.first, vol.spc);
    }

    /** The second part of fs_read: from byte `from` of the k-th cluster to byte `end` of the last-th one. */
    method Gather(c: nat, k: nat, from: nat, last: nat, end: nat, count: nat, ghost others: set<nat>, ghost lo: nat)
      returns (ok: bool, data: seq<byte>)
      requires ApartFrom(others) && k <= last < |chain| && chain[k] == c && count > 0
      requires from < ClusterBytes() && end < ClusterBytes()
      requires k * ClusterBytes() + from == lo && last * ClusterBytes() + end + 1 == lo + count
      modifies vol.table.slots, vol.disk, vol.table`head, cache.slots, cache`head
      ensures ApartFrom(others) && OthersKept(others) && vol.table.fat == old(vol.table.fat) && Img() == old(Img())
      ensures ok ==>
        |data| == count && lo + count <= |Img()| * ClusterBytes() && ReadAt(Img(), ClusterBytes(), lo, data)
      ensures if ok then vol.disk.errors == old(vol.disk.errors) else vol.disk.errors > old(vol.disk.errors)
    {
      var clus, j, first := c, k, from;
      ghost var cs, fat, sec0, img := ClusterBytes(), vol.table.fat, vol.disk.sec, Img();
      data := [];
      RunInBlocks(k, from, last, end, cs, |chain|);
      while j <= last
        invariant ApartFrom(others) && vol.table.fat == fat && OthersSince(others, fat, sec0)
        invariant j <= last && chain[j] == clus && Img() == img && Gathered(lo, data)
        invariant first < cs && j * cs + first == lo + |data| && |data| < count
        invariant vol.disk.errors == old(vol.disk.errors)
      {
        ok, data, clus := GatherOne(clus, j, first, last, end, data, count, others, sec0, lo);
        if !ok || j == last {
          return;
        }
        j, first := j + 1, 0;
      }
    }

    /** The bytes from lo on are these. */
    ghost predicate Gathered(lo: nat, data: seq<byte>)
      requires Shape()
      reads this`start, this`chain, vol, vol.table, vol.table.slots, vol.disk, cache, cache.slots
    {
      lo + |data| <= |Img()| * ClusterBytes() && ReadAt(Img(), ClusterBytes(), lo, data)
    }

    /** One round of the loop: a stretch of the j-th cluster, and on to the next one unless it is the last. */
    method GatherOne(c: nat, j: nat, first: nat, last: nat, end: nat, data: seq<byte>, count: nat,
                     ghost others: set<nat>, ghost sec0: seq<Sector>, ghost lo: nat)
      returns (ok: bool, more: seq<byte>, next: nat)
      requires ApartFrom(others) && OthersSince(others, vol.table.fat, sec0)
      requires j <= last < |chain| && chain[j] == c && first < ClusterBytes() && end < ClusterBytes()
      requires |data| < count && j * ClusterBytes() + first == lo + |data|
      requires last * ClusterBytes() + end + 1 == lo + count && Gathered(lo, data)
      modifies vol.table.slots, vol.disk, vol.table`head, cache.slots, cache`head
      ensures ApartFrom(others) && vol.table.fat == old(vol.table.fat) && Img() == old(Img())
      ensures OthersSince(others, vol.table.fat, sec0)
      ensures ok ==> Gathered(lo, more) && if j == last then |more| == count else |more| < count
      ensures ok && j < last ==> chain[j + 1] == next && (j + 1) * ClusterBytes() == lo + |more|
      ensures if ok then vol.disk.errors == old(vol.disk.errors) else vol.disk.errors > old(vol.disk.errors)
    {
      NextStretch(j, first, last, end, ClusterBytes(), lo, |data|, count);
      var len := if j == last then end + 1 - first else ClusterBytes() - first;
      ReadFurther(Img(), ClusterBytes(), lo, data, j, first, len);
      next := c;
      ok, more := FetchFrom(c, j, first, len, data, others, sec0);
      if ok && j < last {
        ok, next := Follow(c, j, others, sec0);
      }
    }

    /** One cluster of the loop. */
    method FetchFrom(c: nat, ghost i: nat, from: nat, len: nat, data: seq<byte>, ghost others: set<nat>,
                     ghost sec0: seq<Sector>)
      returns (ok: bool, more: seq<byte>)
      requires ApartFrom(others) && i < |chain| && chain[i] == c && from + len <= ClusterBytes()
      requires OthersSince(others, vol.table.fat, sec0)
      modifies vol.disk, cache.slots, cache`head
      ensures ApartFrom(others) && Img() == old(Img())
      ensures OthersSince(others, vol.table.fat, sec0)
      ensures ok ==> more == data + Img()[i][from..from + len]
      ensures if ok then vol.disk.errors == old(vol.disk.errors) else vol.disk.errors > old(vol.disk.errors)
    {
      ghost var fat, sec := vol.table.fat, vol.disk.sec;
      var index;
      ok, index := Load(c, i);
      OwnAreNotOthers(others, chain, fat, fat, sec0, sec, vol.disk.sec, vol.first, vol.spc);
      more := data;
      if ok {
        more := cache.CopyOut(index, from, len, data);
      }
    }

    /** fs_close, without the directory entry: afterwards the device alone holds the file and the table. */
    method Close(ghost others: set<nat>) returns (ok: bool)
      requires ApartFrom(others) && BACKUP_INFO < vol.table.start
      modifies vol.table.slots, vol.disk, cache.slots
      ensures ApartFrom(others) && OthersKept(others) && Img() == old(Img())
      ensures ok ==> OnDevice(chain, vol.first, vol.spc, |vol.disk.sec|)
      ensures ok ==> Images([], vol.disk.sec, chain, vol.first, vol.spc) == Img()
      ensures ok ==> vol.TableOnDevice() && vol.disk.sec[1] == vol.fsInfo && vol.disk.sec[7] == vol.fsInfo
      ensures if ok then vol.disk.errors == old(vol.disk.errors) else vol.disk.errors > old(vol.disk.errors)
    {
      ghost var s, sec0 := cache.slots[..], vol.disk.sec;
      ChainFits(chain, vol.first, vol.spc, vol.clusters, |sec0|);
      ok := vol.Flush();
      ghost var sec1 := vol.disk.sec;
      TableWritten(s, sec0, sec1, chain, vol.first, vol.spc, vol.clusters);
      OnlyBelowData(others, vol.table.fat, sec0, sec1, vol.first, vol.spc);
      if ok {
        ok := FlushData(others, sec0);
        if ok {
          TableHeldFrame(sec1, vol.disk.sec, vol.table.start, vol.table.spf, vol.table.fat);
        }
      }
    }

    /** The slots of the file, written one after the other. */
    method FlushData(ghost others: set<nat>, ghost sec0: seq<Sector>) returns (ok: bool)
      requires ApartFrom(others)
      requires OthersSince(others, vol.table.fat, sec0)
      modifies cache.slots, vol.disk
      ensures ApartFrom(others) && Img() == old(Img())
      ensures OthersSince(others, vol.table.fat, sec0)
      ensures forall k: nat :: k < vol.first ==> vol.disk.sec[k] == old(vol.disk.sec[k])
      ensures ok ==> OnDevice(chain, vol.first, vol.spc, |vol.disk.sec|)
      ensures ok ==> Images([], vol.disk.sec, chain, vol.first, vol.spc) == Img()
      ensures if ok then vol.disk.errors == old(vol.disk.errors) else vol.disk.errors > old(vol.disk.errors)
    {
      ghost var s, sec := cache.slots[..], vol.disk.sec;
      ChainFits(chain, vol.first, vol.spc, vol.clusters, |sec|);
      ok := cache.Flush();
      ghost var s', sec' := cache.slots[..], vol.disk.sec;
      HeldSectorsOnly(s, sec, sec', chain, vol.first, vol.spc);
      DeviceChangedElsewhere(vol.table.slots[..], sec, sec', vol.table.start, vol.table.spf, vol.table.fat);
      ImagesSame(s, sec, s', sec', chain, vol.first, vol.spc, vol.clusters);
      OwnAreNotOthers(others, chain, vol.table.fat, vol.table.fat, sec0, sec, sec', vol.first, vol.spc);
      if ok {
        AllWrittenBack(s, sec, sec', chain, vol.first, vol.spc, vol.clusters);
      }
    }
  }
}

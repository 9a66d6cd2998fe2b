/** Two files on one volume, and a file across a remount. */
module Files {
  import opened Device
  import opened Clock
  import opened Cache
  import opened FatTable
  import opened Chain
  import opened Volume
  import opened Image
  import opened Clusters
  import opened File

  /** Two open files of one volume, each with its own buffers. */
  ghost predicate Beside(f: FatFile, g: FatFile) {
    f != g && f.vol == g.vol && f.cache != g.cache && f.cache.slots != g.cache.slots
  }

  /** A file whose clusters nobody else has touched is what it was. */
  lemma OtherKept(s: seq<Slot>, sec: seq<Sector>, sec': seq<Sector>, chain: seq<nat>, first: nat, spc: nat,
                  clusters: nat,
                  fat: seq<nat>, fat': seq<nat>, others: set<nat>)
    requires Blocks(DataBlocks(first, spc, clusters), spc, |sec|) && spc > 0
    requires SlotsOk(s, sec, DataBlocks(first, spc, clusters), spc)
    requires |fat| == clusters && (chain == [] || IsChain(fat, chain)) && OnDevice(chain, first, spc, |sec|)
    requires Held(s) <= ChainBlocks(chain, first, spc)
    requires forall i :: 0 <= i < |chain| ==> chain[i] in others
    requires OthersSame(others, fat, fat', sec, sec', first, spc)
    ensures chain == [] || IsChain(fat', chain)
    ensures SlotsOk(s, sec', DataBlocks(first, spc, clusters), spc)
    ensures Images(s, sec', chain, first, spc) == Images(s, sec, chain, first, spc)
  {
    forall i | 0 <= i < |chain|
      ensures fat'[chain[i]] == fat[chain[i]]
      ensures Block(sec', ClusterSector(chain[i], first, spc), spc) ==
        Block(sec, ClusterSector(chain[i], first, spc), spc)
    {
      var a := ClusterSector(chain[i], first, spc);
      assert ClusterSame(chain[i], fat, fat', sec, sec', first, spc);
      forall k | a <= k < a + spc ensures sec'[k] == sec[k] {
        assert Inside(k, a, spc);
      }
      BlockFrame(sec, sec', a, spc);
    }
    if chain != [] {
      ChainFrame(fat, fat', chain);
    }
    forall j | 0 <= j < |s| && s[j].cur != EMPTY
      ensures Block(sec', s[j].cur, spc) == Block(sec, s[j].cur, spc)
    {
      assert s[j].cur in Held(s);
      var i :| 0 <= i < |chain| && s[j].cur == ClusterSector(chain[i], first, spc);
    }
    forall i | 0 <= i < |chain|
      ensures Images(s, sec', chain, first, spc)[i] == Images(s, sec, chain, first, spc)[i]
    {
    }
  }

  /** Whose clusters come first does not matter. */
  lemma InUseBoth(a: seq<nat>, b: seq<nat>, rest: set<nat>)
    ensures InUse(a, InUse(b, rest)) == InUse(b, InUse(a, rest))
  {
  }

  /** fs_write on f, seen from g: the bytes of g are what they were, whatever f was given and whether or not
      the write worked, and the two files still share no cluster. */
  method WriteBeside(f: FatFile, g: FatFile, buf: seq<byte>, count: nat, ghost rest: set<nat>) returns (ok: bool,
                     r: nat)
    requires Beside(f, g) && f.Valid() && g.Valid() && count <= |buf| && f.loc + count <= FAILED
    requires f.ApartFrom(InUse(g.chain, rest)) && g.ApartFrom(InUse(f.chain, rest))
    requires f.MayAllocate(InUse(g.chain, rest)) || f.loc + count <= |f.chain| * f.ClusterBytes()
    modifies f, f.vol.table.slots, f.vol.disk, f.vol.table`head, f.vol.table`fat, f.vol`fsInfo, f.cache.slots,
             f.cache`head
    ensures f.Valid() && g.Valid() && f.ApartFrom(InUse(g.chain, rest)) && g.ApartFrom(InUse(f.chain, rest))
    ensures f.HintKept(InUse(g.chain, rest), ok)
    ensures g.Bytes() == old(g.Bytes())
    ensures ok ==> f.Bytes() == Overwritten(old(f.Bytes()), old(f.loc), buf[..count])
  {
    ghost var s, sec, fat := g.cache.slots[..], g.vol.disk.sec, g.vol.table.fat;
    ChainFits(g.chain, g.vol.first, g.vol.spc, g.vol.clusters, |sec|);
    ok, r := f.Write(buf, count, InUse(g.chain, rest));
    OtherKept(s, sec, g.vol.disk.sec, g.chain, g.vol.first, g.vol.spc, g.vol.clusters, fat, g.vol.table.fat,
              InUse(g.chain, rest));
    InUseBoth(f.chain, g.chain, rest);
  }

  /** The loop of fs_rm on the chain of a file, seen from an open file g: its bytes are what they were, whether or not
      the removal worked, and none of its clusters can be handed out. */
  method RemoveBeside(g: FatFile, start: nat, ghost chain: seq<nat>, ghost rest: set<nat>) returns (ok: bool)
    requires g.Valid() && g.ApartFrom(InUse(chain, rest))
    requires IsChain(g.vol.table.fat, chain) && chain[0] == start && forall c :: c in rest ==> c !in chain
    modifies g.vol.table.slots, g.vol.disk, g.vol.table`head, g.vol.table`fat
    ensures g.Valid() && g.ApartFrom(rest) && g.Bytes() == old(g.Bytes())
    ensures old(g.vol.Safe(g.Used(InUse(chain, rest)))) ==> g.vol.Safe(g.Used(rest))
    ensures ok ==> forall c :: c in chain ==> Next(g.vol.table.fat, c) == 0
    ensures if ok then g.vol.disk.errors == old(g.vol.disk.errors) else g.vol.disk.errors > old(g.vol.disk.errors)
  {
    ghost var s, sec, fat := g.cache.slots[..], g.vol.disk.sec, g.vol.table.fat;
    ghost var own := set c | c in g.chain;
    ChainFits(g.chain, g.vol.first, g.vol.spc, g.vol.clusters, |sec|);
    ok := g.vol.Remove(start, chain, InUse(g.chain, InUse(chain, rest)));
    OthersTouchedNot(own, chain, fat, g.vol.table.fat, sec, g.vol.disk.sec, g.vol.first, g.vol.spc);
    OtherKept(s, sec, g.vol.disk.sec, g.chain, g.vol.first, g.vol.spc, g.vol.clusters, fat, g.vol.table.fat, own);
    assert InUse(g.chain, InUse(chain, rest)) - (set c | c in chain) == InUse(g.chain, rest);
  }

  /** Entries of one chain have changed and no data sector has: clusters not in the chain are what they were. */
  lemma OthersTouchedNot(own: set<nat>, chain: seq<nat>, fat: seq<nat>, fat': seq<nat>, sec: seq<Sector>,
                         sec': seq<Sector>,
                         first: nat, spc: nat)
    requires |fat'| == |fat| && |sec'| == |sec| && forall c :: c in own ==> c !in chain
    requires forall c :: 0 <= c < |fat| && c !in chain ==> fat'[c] == fat[c]
    requires forall k :: first <= k < |sec| ==> sec'[k] == sec[k]
    ensures OthersSame(own, fat, fat', sec, sec', first, spc)
  {
  }

  /** fs_close, and the volume mounted again from the device alone: the file has the same bytes. */
  method Remount(f: FatFile, ghost others: set<nat>) returns (ok: bool, g: FatFile)
    requires f.Valid() && f.ApartFrom(others) && BACKUP_INFO < f.vol.table.start
    modifies f.vol.table.slots, f.vol.disk, f.cache.slots
    ensures ok ==> g.vol.Safe(g.Used(others)) == old(f.vol.Safe(f.Used(others)))
    ensures ok ==>
      g.Valid() && g.ApartFrom(others) && g.Bytes() == old(f.Bytes()) && fresh(g) && fresh(g.cache) && fresh(g.vol)
    ensures ok <==> f.vol.disk.errors == old(f.vol.disk.errors)
  {
    var vol := f.vol;
    ok := f.Close(others);
    g := f;
    if ok {
      var table := new FatBuffer(2, vol.disk, vol.table.start, vol.table.spf, vol.clusters);
      assert table.fat == vol.table.fat;
      var again := new FatVolume(vol.disk, table, vol.first, vol.spc, vol.clusters, vol.disk.sec[INFO]);
      g := new FatFile(again, f.start, f.size, f.chain);
    }
  }
}

# ZJUNIX: a verified model of its memory, locking, file and scheduling cores

ZJUNIX is a small MIPS operating system written in C. This project models the parts of it in which the
algorithm carries the weight, and proves what they promise. Check it with `dafny verify dfyconfig.toml`.

- **Buddy allocator** (`List`, `Partition`, `Buddy`). Page descriptors, the per-order free lists and the
  splitting and merging loops, over concrete doubly linked lists. A ghost partition of the managed range into aligned
  blocks explains why only heads of blocks are ever inspected, and why the stale data on all other pages does no harm.
  From it follow canonical form (the lists are determined by the set of free frames) and completeness (an allocation
  fails exactly when no aligned run is free).
- **Bakery lock** (`Bakery`). Lamport's bakery with slots claimed on demand, as an interleaving of single reads and
  writes; the scan and the wait loop read a ticket more than once, as the C text does. Mutual exclusion, first come first
  served, progress, and what becomes of the slots.
- **FAT32 file data** (`Device`, `Clock`, `Cache`, `FatTable`, `Chain`, `Volume`, `Image`, `Clusters`, `File`,
  `Files`). A disk whose transfers may fail midway, clock write-back caches, the 28-bit table with its mirror, cluster
  allocation and release, and on top of them a file as a string of bytes: reading, writing, extending, closing,
  remounting, and two files side by side, one of them written or removed.
- **Scheduler** (`Queues`, `Steps`, `Rounds`, `Effects`, `Pid`, `Scheduler`). The multilevel feedback queue with waiting,
  exiting, killing and reaping, and the bitmap of process numbers. `Steps` says what each operation does to a snapshot,
  `Scheduler` does it list by list and loop by loop, `Rounds` follows runs of clock ticks, `Effects` says field by field
  what each operation changes.
- **Indexed structures** (`PageTable`, `PageCache`, `SlabPage`). Each is shown to agree with a flat one: a flat page
  map, a recency list, a set of slots. `Teardown` follows the removal of a page table into the buddy allocator.

`Bits` holds the arithmetic of shifts and masks, `Sequences` lists without repetitions. Where C updates a structure in
place there is a class whose methods do the same steps; lemmas on snapshots of its state carry the proofs.

## What the model assumes

- The kernel's locks around the allocator make each of its operations atomic, and the managed range starts aligned
  and reserved, as `init_buddy` arranges it.
- Device addresses are relative to the partition (`base_addr` = 0): the readers add `base_addr`, the clearing and
  erasing calls do not, and the two agree only then.
- The FAT is no longer than 28-bit cluster numbers need (twice its sectors stay below 0x7fffff), and the device has fewer
  than 0xffffffff sectors.
- A cluster has 1, 2, 4 or 8 sectors; a failed block read leaves the buffer as it was; a file has one open handle;
  a file's position plus a count fits 32 bits, and tickets are unbounded.
- Interrupts, context switching and address-space activation are a change of the current task. `kmalloc` answers and
  device failures are parameters or arbitrary choices.
- `next_pid` is taken modulo 256 wherever it is stored; the code may store 256 and reads one byte past the bitmap then
  (`kernel/pc/pid.c:60`).

## What does not hold as written

- `do_unlock` frees a slot by writing 0 (`kernel/lock/mylock.c:99`), while a slot is free when it holds a negative
  value. Mutual exclusion and first come, first served hold for every mark (`Bakery.MutualExclusion`,
  `Bakery.FirstComeFirstServed`). With 0 no slot is ever free again, so N slots are granted N times in all
  (`Bakery.SlotsRunOut`); with a negative value a claim fails only when all slots are held
  (`Bakery.ClaimFailsOnlyWhenFull`). A caller whose pid stands in an earlier slot gives back the wrong ticket, and only
  such a caller (`Bakery.UnlockFindsOwnSlot`), which is the process whose pid is the mark. Its own ticket then has no
  owner any more and is the least there is, since it was inside (`Bakery.LosingJams`), and from then on nobody enters
  (`Bakery.JammedForever`). On a fresh lock two rounds of pid 0 alone are enough (`Bakery.TwoRoundsOfPidZeroJam`).
- `fs_alloc` trusts the FSInfo hint without looking at the entry. The cluster it hands out is in use exactly when the hint
  is followed and leads to a cluster in use (`Volume.FatVolume.Reserve`; `Volume.HintCanNameAUsedCluster` is an instance);
  it takes a data cluster not in use, or none, exactly when the hint is beyond the free count or leads to such a cluster
  (`Volume.HintMustBeTrue`). The value 0xffffffff, which means that there is no hint, and 0 are followed as well and
  lead to cluster 0 or 1 and into the second copy of the table (`Volume.NoHintErasesTheSecondCopy`); no other hint leaves
  the data clusters unless the free count is larger than their number (`Volume.OnlyNoHintLeavesTheData`).
- On a full table with the hint beyond the free count, `fs_alloc` marks the entry of 0xffffffff before it fails
  (`kernel/fs/fat/fat.c:509-518`). On a device of more than about 4 GiB the sector that entry would lie in exists and holds
  a file's data; it is patched, and copied over a second sector. Sectors outside the table and the new cluster stay exactly
  under the condition of `Volume.FatVolume.AllocThenFlush`; `Volume.FullTableOnALargeDevice` is an instance.
- `fs_alloc` fails when the free cluster it marks is the last one, because it then finds no next hint; it succeeds
  exactly when a further free cluster exists (`Volume.FatVolume.Alloc`; `Volume.LastFreeClusterIsRefused` is an instance).
- `waitpid` lets idle leave the foreground; everything stays in order exactly when idle does not go to sleep
  (`Steps.WaitKeeps`; `Steps.IdleCanGoToSleep` is an instance).
- `pc_kill` may find a dead, unreaped process that bore the same number before; `Steps.KillKeepsExactlyWhenFirstIsAlive`
  is the exact condition, `Steps.KillCanHitTheDead` an instance, and a run from the start comes to it
  (`Steps.ReusedIsReached`).
- `pgd_delete` passes an address to kfree twice exactly when it is mapped at two pages or is itself a table
  (`PageTable.DeleteFreesEachOnce`). For frames that is not enough: kfree strips the top bit and frees whole blocks. Each
  block is freed once exactly when every table and every mapped frame is the first frame of a block of its own that is no
  slab page (`Teardown.DeleteIsSafeExactlyWhenOwn`). Pages of one block mapped one by one, as the program loader does it,
  break the condition (`Teardown.PagesOfOneBlock`), and so do a mapped slab page, which kfree takes for an object
  (`Teardown.SlabPageMapped`), and two addresses that differ in the top bit only (`Teardown.TopBitHidesASharedFrame`).

## Model

| member | source | states |
|---|---|---|
| `List.ListArena.InsertAfter` | `include/zjunix/list.h:23-28` | the new node stands in its ring just behind the given one; every other ring, and the order of this one, is as before |
| `List.ListArena.Add` | `include/zjunix/list.h:30` | the node becomes the first of its ring |
| `List.ListArena.AddTail` | `include/zjunix/list.h:32` | the node becomes the last of its ring |
| `List.ListArena.Unhook` | `include/zjunix/list.h:34-37` | exactly the one node leaves its ring; the neighbours are joined |
| `List.ListArena.Del` | `include/zjunix/list.h:39-43` | the node leaves its ring and keeps poisoned pointers |
| `List.ListArena.DelInit` | `include/zjunix/list.h:45-48` | the node leaves its ring and is a ring of its own |
| `List.ListArena.IsEmpty` | `include/zjunix/list.h:60` | true exactly when the ring behind the head has no node |
| `List.SpliceStaysWired` | `include/zjunix/list.h:23-28` | the four pointer stores of an insertion turn wired rings into the rings with the node spliced in |
| `List.CutStaysWired` | `include/zjunix/list.h:34-37` | the two pointer stores of a removal turn wired rings into the rings without the node |
| `Partition.PairFacts` | `kernel/mm/mybuddy.c:98-127` | XOR with the size gives the neighbour that completes the next larger aligned block, AND gives that block's head |
| `Partition.PairIsHead` | `kernel/mm/mybuddy.c:98-111` | the pair index of a block in hand is itself the head of a current block, so only heads are ever inspected |
| `Partition.FreeRunInOneBlock` | `kernel/mm/mybuddy.c:98-128` | when no two free buddies of equal order below 4 coexist, an aligned free run lies inside one free block |
| `Partition.FreeHeadsAreMaximalRuns` | `kernel/mm/mybuddy.c:98-146` | a frame heads a free block of order k exactly when its aligned run of 2^k frames is free and no larger aligned run around it is |
| `Partition.FreeBlocksForgetHistory` | `kernel/mm/mybuddy.c:86-192` | two partitions with the same free frames have the same free blocks |
| `Partition.RoomIffFreeBlock` | `kernel/mm/mybuddy.c:159-168` | an aligned free run of 2^k frames exists exactly when a free block of order k or more does |
| `Partition.AllFreeMeansAllLargest` | `kernel/mm/mybuddy.c:79-81` | with every frame free all blocks have order 4 |
| `Partition.BlocksAreDisjoint` | `kernel/mm/mybuddy.c:86-192` | two different blocks share no frame |
| `Partition.ReleaseKeepsApart` | `kernel/mm/mybuddy.c:98-128` | releasing a block whose pair is not free leaves no two free buddies |
| `Partition.HalvingKeepsApart` | `kernel/mm/mybuddy.c:178-188` | splitting the block in hand leaves no two free buddies |
| `Buddy.Withdraw` | `kernel/mm/mybuddy.c:117-118` | taking a head off its list keeps descriptors, lists and counters true of the new partition |
| `Buddy.Coalesce` | `kernel/mm/mybuddy.c:100-125` | one round of merging, with -1 written on the surviving head, keeps them true although the other page keeps stale data |
| `Buddy.Release` | `kernel/mm/mybuddy.c:128-146` | putting the block in hand on its list completes the representation again |
| `Buddy.Split` | `kernel/mm/mybuddy.c:178-188` | one halving keeps descriptors, lists and counters true |
| `Buddy.RoomIffListed` | `kernel/mm/mybuddy.c:159-168` | there is room for an order exactly when some list of that order or above is not empty |
| `Buddy.CountersFrom` | `kernel/mm/mybuddy.c:118-146` | the counters times the block sizes add up to the free frames of those orders |
| `Buddy.BuddySystem.Init` | `kernel/mm/mybuddy.c:65-82` | the page-by-page release ends with every frame free, lists 0 to 3 empty and list 4 holding exactly the aligned heads |
| `Buddy.BuddySystem.PairIsFree` | `kernel/mm/mybuddy.c:100-115` | the tests of level and flag say exactly whether the pair is a free block of the same order |
| `Buddy.BuddySystem.Combine` | `kernel/mm/mybuddy.c:117-125` | one merge: the joined block is in hand, free frames and allocated blocks as before |
| `Buddy.BuddySystem.CombineAll` | `kernel/mm/mybuddy.c:96-126` | the loop ends with a block whose pair is not free; nothing free is lost |
| `Buddy.BuddySystem.FreePages` | `kernel/mm/mybuddy.c:86-150` | the frames of the block join the free ones; the block they end up in heads its list, each list below it has lost the block that was joined, the others are as they were |
| `Buddy.BuddySystem.FindOrder` | `kernel/mm/mybuddy.c:159-164` | the smallest order at or above the request whose list is not empty |
| `Buddy.BuddySystem.SplitDown` | `kernel/mm/mybuddy.c:178-188` | of the block taken exactly the request stays allocated, the rest is free again |
| `Buddy.BuddySystem.AllocBlock` | `kernel/mm/mybuddy.c:152-192` | fails exactly when no aligned run of 2^order frames is wholly free; otherwise the first block of the lowest list that is not empty is cut down, its upper halves are the only blocks on the lists between, and nothing else changes |
| `Buddy.BuddySystem.AllocPages` | `kernel/mm/mybuddy.c:194-207` | a block of the least order that holds the pages, its address the frame number shifted by 12 |
| `Buddy.AddressOfFrame` | `kernel/mm/mybuddy.c:206` | frame number and address by shifts of 12 |
| `Buddy.BuddySystem.FreeAddress` | `kernel/mm/mybuddy.c:209-211` | the block at the address becomes free |
| `Buddy.BuddySystem.ListsAreCanonical` | `kernel/mm/mybuddy.c:86-192` | in every valid state list k holds exactly the maximal aligned free blocks of order k |
| `Buddy.BuddySystem.ListsForgetHistory` | `kernel/mm/mybuddy.c:86-192` | two allocators with the same free frames have the same lists and counters |
| `Buddy.BuddySystem.CountersAddUp` | `kernel/mm/mybuddy.c:118-185` | the sum of counter times block size is the number of free frames |
| `Buddy.BuddySystem.AllocThenFree` | `kernel/mm/mybuddy.c:86-192` | freeing what was just allocated restores lists and counters |
| `Bakery.InitInv` | `kernel/lock/mylock.c:6-13` | the state made by init_lock satisfies the invariant |
| `Bakery.InvKept` | `kernel/lock/mylock.c:31-100` | every single read or write of any process keeps the invariant, whatever value marks a freed slot, unless the process is about to give back the ticket of a slot that is not its own |
| `Bakery.LosingJams` | `kernel/lock/mylock.c:91-100` | a process that gives back another slot's ticket instead of its own leaves the lock jammed: its own ticket is the least, has no owner, and nobody has come past it |
| `Bakery.OrderlyOrJammed` | `kernel/lock/mylock.c:31-100` | over every schedule and for every mark the invariant holds or the lock is jammed, the latter only when the mark is the pid of a process |
| `Bakery.MutualExclusion` | `kernel/lock/mylock.c:31-100` | over every schedule, any number of processes and slots, any mark, at most one process is between do_lock and the clearing of its ticket |
| `Bakery.FirstComeFirstServed` | `kernel/lock/mylock.c:64-80` | a process that has its ticket before another sets choosing is not overtaken by it while it keeps the ticket, whatever the mark |
| `Bakery.LeastProceeds` | `kernel/lock/mylock.c:71-80` | with nobody in the doorway every access brings the holder of the least ticket nearer, also when it reads a ticket just given back |
| `Bakery.LeastEnters` | `kernel/lock/mylock.c:71-80` | it enters within five accesses to a slot |
| `Bakery.SomeoneIsLeast` | `kernel/lock/mylock.c:71-80` | with tickets out, nobody in the doorway and nobody inside, some waiting process holds the least |
| `Bakery.DoorwayIsWaitFree` | `kernel/lock/mylock.c:64-69` | nobody can hold up a process in the doorway |
| `Bakery.ClaimTarget` | `kernel/lock/mylock.c:38-58` | the slot of the pid if that is free, else the first free one; N only when none is |
| `Bakery.UnlockFindsOwnSlot` | `kernel/lock/mylock.c:91-100` | do_unlock gives back the caller's own ticket exactly when no earlier slot shows the caller's pid |
| `Bakery.JammedForever` | `kernel/lock/mylock.c:60-80` | a slot whose ticket has no owner and is the least there is, with nobody past it: over every schedule nobody enters any more |
| `Bakery.TwoRoundsOfPidZeroJam` | `kernel/lock/mylock.c:31-100` | on a lock with any number of slots from two on, two rounds of lock and unlock by pid 0 alone, from init_lock on, end in such a state when the mark is the 0 that the code writes |
| `Bakery.SlotsRunOut` | `kernel/lock/mylock.c:99` | with a mark that is not negative, as the 0 of the code, no slot becomes free again: claims made plus slots left is constant over every schedule of all processes |
| `Bakery.GrantedAtMostNTimes` | `kernel/lock/mylock.c:6-13` | from init_lock on a lock with N slots is claimed at most N times then |
| `Bakery.ClaimFailsOnlyWhenFull` | `kernel/lock/mylock.c:41-57` | with a negative mark a claim fails only while every slot belongs to a process between do_lock and do_unlock |
| `Clock.SweepReferences` | `kernel/fs/fscache/fscache.c:10-26` | stops at the first slot in clock order with both bits clear, having cleared exactly the reference bits it passed |
| `Clock.SweepDirty` | `kernel/fs/fscache/fscache.c:28-38` | stops at the first clean slot in clock order, else back where it began |
| `Clock.Victim` | `kernel/fs/fscache/fscache.c:6-49` | the slot given up is the right one: the first idle one from the head on, else the first clean one, else the one under the head; of the slots passed the reference bits are cleared, nothing else changes; the head is just behind it |
| `Clock.ChoiceIsRight` | `kernel/fs/fscache/fscache.c:6-49` | the choice, said slot by slot: with an idle slot, it is idle and every slot before it from the head on is not; else with a clean slot, it is clean and every slot before it is dirty; else it is the one under the head |
| `Clock.OneRightVictim` | `kernel/fs/fscache/fscache.c:6-49` | no other slot is the right one |
| `Clock.PassedIsChances` | `kernel/fs/fscache/fscache.c:10-26` | when an idle slot is found exactly the slots before it lose their reference bit, when there is none all do |
| `Clock.DirtyOnlyWhenAllDirty` | `kernel/fs/fscache/fscache.c:40-41` | a dirty slot is chosen only when all slots are dirty |
| `Cache.WrittenBack` | `kernel/fs/fscache/fscache.c:52-64` | writing a slot's block to the device, whole or in part, does not change the logical disk |
| `Cache.Replaced` | `kernel/fs/fscache/fscache.c:75-85` | giving a clean slot to an uncached block with its contents does not change the logical disk |
| `Cache.StoredInto` | `kernel/fs/fat/fat.c:594-605` | a changed buffer shows in its own block and in no other |
| `Cache.BlockCache.WriteBack` | `kernel/fs/fscache/fscache.c:52-64` | the logical disk is unchanged; on success the slot is clean; only held blocks are written |
| `Cache.BlockCache.Evict` | `kernel/fs/fscache/fscache.c:117-175` | the victim is the one the clock algorithm chooses and may be overwritten; the logical disk is unchanged |
| `Cache.BlockCache.Read` | `kernel/fs/fscache/fscache.c:67-92` | the slot returned is the one that has the block, else the clock's choice, and holds the block's logical contents; the logical disk is unchanged, no block is held twice |
| `Cache.BlockCache.Clear` | `kernel/fs/fscache/fscache.c:95-114` | for an uncached block that is blank on the device: on success a slot holds it, blank and clean; the logical disk is unchanged |
| `Cache.BlockCache.Store` | `kernel/fs/fat/fat.c:594-615` | the block reads as before with the stretch written over it, every other block as before |
| `Cache.BlockCache.CopyOut` | `kernel/fs/fat/fat.c:436-447` | exactly the bytes asked for, in order |
| `Cache.BlockCache.Flush` | `kernel/fs/fat/fat.c:383-386` | the logical disk is unchanged; on success every block on the device equals its logical contents |
| `FatTable.GetAfterSet` | `kernel/fs/fat/utils.c:21-36` | a word written is the word read back |
| `FatTable.BytesOfWord` | `kernel/fs/fat/utils.c:21-23` | byte i of the word at a place is what a shift by 8 i leaves in the low byte |
| `FatTable.BytesStored` | `kernel/fs/fat/utils.c:31-36` | byte i stored is the word shifted by 8 i, and no other byte changes |
| `FatTable.EntryInStored` | `kernel/fs/fat/utils.c:105-109` | writing one entry of a sector leaves all others |
| `FatTable.FirstCopy` | `kernel/fs/fat/fat.c:130` | the write of the first copy, even if it fails midway, leaves the table as it was |
| `FatTable.SecondCopy` | `kernel/fs/fat/fat.c:132` | the write of the second copy, even if it fails, leaves the table as it was |
| `FatTable.BothCopies` | `kernel/fs/fat/fat.c:130-134` | only with both copies written may the slot be called clean: copies of every sector not dirty in the buffer agree |
| `FatTable.FatBuffer.WriteFatSector` | `kernel/fs/fat/fat.c:127-139` | the table is unchanged and copies agree where no slot is dirty, also when a write fails; a slot that holds a sector beyond the table goes to that sector and to the one a table length further on |
| `FatTable.FatBuffer.ReadFatSector` | `kernel/fs/fat/fat.c:142-166` | on success the slot returned holds the sector, be it one of the table or the one that entry 0xffffffff would lie in; the table is unchanged |
| `FatTable.FatBuffer.GetEntry` | `kernel/fs/fat/utils.c:62-78` | the low 28 bits of the entry as last written; when no slot holds its sector, the entry is the four bytes on the device, least first |
| `FatTable.FatBuffer.ModifyEntry` | `kernel/fs/fat/utils.c:81-102` | the low 28 bits become those given, the top four and all other entries stay; for entry 0xffffffff, which the table does not have, a sector behind the table is patched in the buffer |
| `FatTable.FatBuffer.Flush` | `kernel/fs/fat/fat.c:350-352` | the table is unchanged; on success both copies on the device are the table, and a patched sector behind the table is on the device twice |
| `Chain.ChainIsAcyclic` | `kernel/fs/fat/fat.c:430-435` | a chain that ends meets no cluster twice |
| `Chain.MarkIs` | `kernel/fs/fat/fat.c:513-518` | an end mark sets the low 28 bits of the entry, keeps its top four and all other entries |
| `Chain.ChainsMerge` | `kernel/fs/fat/fat.c:430-435` | two chains with a common cluster are the same from there on |
| `Chain.LastIsMarked` | `kernel/fs/fat/fat.c:579-590` | exactly the last cluster of a chain carries an end mark, and none a zero |
| `Chain.Appended` | `kernel/fs/fat/fat.c:584-590` | a fresh marked cluster linked behind the last one gives the longer chain |
| `Chain.Released` | `kernel/fs/fat/usr.c:27-35` | the loop ends on every table, cyclic chains included, and only clears entries |
| `Chain.RmFreesExactlyTheChain` | `kernel/fs/fat/usr.c:24-35` | exactly the clusters of the removed file become free |
| `Chain.RmKeepsOtherChains` | `kernel/fs/fat/usr.c:24-35` | every other file's chain is still a chain |
| `Bits.Log2` | `kernel/fs/fat/utils.c:40-46` | the logarithm rounded down; for a power of two the shift |
| `Volume.SectorByShift` | `kernel/fs/fat/utils.c:112-114` | the shift by fs_wa is the product with the cluster size when that is a power of two |
| `Volume.SectorClusterRoundTrip` | `kernel/fs/fat/utils.c:112-118` | every sector of a cluster leads back to the cluster |
| `Volume.ClustersApart` | `kernel/fs/fat/utils.c:112-114` | different clusters have no sector in common |
| `Volume.FirstFree` | `kernel/fs/fat/fat.c:479-494` | the first cluster from the start on whose entry is zero; 0xffffffff if none |
| `Volume.CandidateIs` | `kernel/fs/fat/fat.c:505-510` | which cluster fs_alloc goes to, from the words at bytes 488 and 492 of the FSInfo sector |
| `Volume.HintMustBeTrue` | `kernel/fs/fat/fat.c:505-516` | with all clusters in use marked, what fs_alloc takes is a data cluster not in use, or nothing, exactly when the FSInfo hint is beyond the free count or leads to such a cluster |
| `Volume.HintCanNameAUsedCluster` | `kernel/fs/fat/fat.c:505-521` | a table and a hint with which fs_alloc hands out a cluster that a file has |
| `Volume.NoHintErasesTheSecondCopy` | `kernel/fs/fat/fat.c:505-533` | the hints 0xffffffff, whatever the free count, and 0, unless that is 0xffffffff, make cluster 0 or 1 the candidate, whose sectors lie in the second copy of the table |
| `Volume.OnlyNoHintLeavesTheData` | `kernel/fs/fat/fat.c:505-516` | when the candidate, if there is one, is a data cluster: exactly when the hint is beyond the free count or leads to one; with a free count no larger than the number of data clusters, exactly when the hint is neither of these two |
| `Volume.LastFreeClusterIsRefused` | `kernel/fs/fat/fat.c:518-525` | a table on which the only free cluster is the candidate, so that fs_alloc fails |
| `Volume.FatVolume.NextFree` | `kernel/fs/fat/fat.c:479-498` | the first free cluster from the start on; the table is unchanged |
| `Volume.FatVolume.Mark` | `kernel/fs/fat/fat.c:505-518` | the candidate gets the end mark and its entry alone changes; without a candidate, on a device large enough, a sector behind the table is patched instead |
| `Volume.FatVolume.UpdateHint` | `kernel/fs/fat/fat.c:520-527` | success puts one less than the first free cluster from the one taken on into bytes 492 to 495 of the FSInfo sector; all other bytes of it stay, and all of it on failure; it fails without device error exactly when none is left |
| `Volume.FatVolume.Reserve` | `kernel/fs/fat/fat.c:501-529` | for clusters in use that are marked, whatever the hint: the cluster taken is one of them exactly when the hint is followed and leads to one; after a success the next one will not be; of the FSInfo sector the hint alone changes, and nothing on failure; without device errors it succeeds exactly when a cluster after the candidate is free |
| `Volume.FatVolume.Alloc` | `kernel/fs/fat/fat.c:501-539` | the same, and the cluster is blank on the device and no sector outside the table and that cluster has changed; without a candidate it fails, on a large device with a sector behind the table patched in the buffer |
| `Volume.FatVolume.AllocThenFlush` | `kernel/fs/fat/fat.c:501-539` | an allocation followed by the flush of the table leaves every sector outside table and candidate alone exactly when there was a candidate, or the device ends before the sector that entry 0xffffffff would lie in, or that sector and its would-be copy hold the mark already |
| `Volume.FullTableOnALargeDevice` | `kernel/fs/fat/fat.c:509-518` | a full volume of a little over 4 GiB on which that sector belongs to a data cluster and the mark changes it |
| `Volume.FatVolume.Release` | `kernel/fs/fat/usr.c:25-35` | the table is the one that releasing from the start cluster gives; the loop ends on every table |
| `Volume.FatVolume.Remove` | `kernel/fs/fat/usr.c:25-35` | for a file's chain exactly its entries become zero, on a device error some of them; no other entry changes, and a hint that was safe for all clusters in use is safe for those left |
| `Volume.FatVolume.Flush` | `kernel/fs/fat/fat.c:341-352` | on success the FSInfo sector is on sectors 1 and 7 of the device, and both copies of the table are |
| `Volume.MarkingKeepsSafe` | `kernel/fs/fat/fat.c:510-518` | marking the candidate takes nothing from the clusters in use |
| `Volume.ExhaustedAfter` | `kernel/fs/fat/fat.c:516-525` | a candidate marked with nothing free behind it leaves nothing for the next allocation |
| `Volume.NewHintSafe` | `kernel/fs/fat/fat.c:527` | a hint just before a free cluster is safe |
| `Image.PlaceByShift` | `kernel/fs/fat/fat.c:415-418` | shift and mask give the cluster index and the byte within the cluster |
| `Image.RunPlaces` | `kernel/fs/fat/fat.c:415-418` | first and last cluster of a run; the run fits the chain exactly when the last one does |
| `Image.WrittenFurther` | `kernel/fs/fat/fat.c:594-615` | a stretch stored into one cluster continues the write and touches no other byte of the file |
| `Image.WrittenThenAppended` | `kernel/fs/fat/fat.c:617-628` | a cluster appended to the chain leaves what was written |
| `Image.WrittenContents` | `kernel/fs/fat/fat.c:594-640` | the whole write, seen on the file, is its contents with the bytes written over them |
| `Image.ReadContents` | `kernel/fs/fat/fat.c:436-470` | the bytes gathered cluster by cluster are the stretch of the file's contents |
| `Clusters.ClusterWritten` | `kernel/fs/fat/fat.c:533` | erasing a cluster that no slot holds changes no byte of a file that does not own it |
| `Clusters.AllocationKeeps` | `kernel/fs/fat/fat.c:501-539` | an allocation leaves the file's chain and data, and every other file's entries and sectors |
| `Clusters.LinkKeeps` | `kernel/fs/fat/fat.c:587-588` | linking a fresh cluster makes the chain one longer and keeps the data before it |
| `Clusters.CacheWorked` | `kernel/fs/fscache/fscache.c:67-114` | reading, evicting and clearing leave the data and the table, and write to the file's own clusters only |
| `Clusters.OneImageStored` | `kernel/fs/fat/fat.c:594-615` | storing into one cluster's slot changes no other cluster of the file |
| `Clusters.AllWrittenBack` | `kernel/fs/fat/fat.c:383-386` | when every block is on the device, the device alone gives the file's data |
| `Clusters.BytesOnDevice` | `kernel/fs/fat/fat.c:436-447` | with nothing cached, byte q of the i-th cluster of a chain is byte q % 512 of sector (cluster - 2) * sectors per cluster + first + q / 512 |
| `File.FatFile.constructor` | `kernel/fs/fat/fat.c:311-336` | an opened file has nothing cached, stands at its beginning and has the bytes on the device |
| `File.FatFile.Load` | `kernel/fs/fscache/fscache.c:67-92` | the slot returned holds the cluster's bytes; the file's data are unchanged and only its own sectors written |
| `File.FatFile.Link` | `kernel/fs/fat/fat.c:587-588` | the chain grows by the cluster; data before it, other files and the hint stay good |
| `File.FatFile.Advance` | `kernel/fs/fat/fat.c:578-593` | the next cluster of the chain, allocated if there is none, for which the hint must be safe; data, other files and hint stay good |
| `File.FatFile.Begin` | `kernel/fs/fat/fat.c:559-571` | an empty file gets its first cluster |
| `File.FatFile.Place` | `kernel/fs/fat/fat.c:545-548` | position = cluster index times cluster size + byte, byte below the cluster size |
| `File.FatFile.Reach` | `kernel/fs/fat/fat.c:557-593` | the cluster a position lies in, the chain extended as needed, the data before unchanged; the hint matters only when a cluster is needed |
| `File.FatFile.Fill` | `kernel/fs/fat/fat.c:594-630` | the bytes from the position on are those of the buffer, no other byte changes, through splitting and extension; the hint matters only when a cluster is needed |
| `File.FatFile.Write` | `kernel/fs/fat/fat.c:542-642` | success: the bytes are those before with the buffer written over them at the position, size and position follow; failure: size and position stay and at most a prefix of the buffer is written; other files are unchanged, a safe hint stays safe, and of the FSInfo sector the hint alone changes; a run that fits the chain changes neither table nor FSInfo sector; without a device error it fails only when a cluster is needed and none is left behind the hint. Any hint will do for a run that fits the chain; for one that does not, the hint must be safe and a failing allocation must not reach a sector of a file |
| `File.FatFile.Gather` | `kernel/fs/fat/fat.c:436-465` | the bytes of the run, cluster by cluster; the data are unchanged |
| `File.FatFile.Read` | `kernel/fs/fat/fat.c:394-476` | on every volume, whatever its hint; success: exactly the bytes from the position to position + count or the end; the file, other files and table unchanged; fails exactly on a device error |
| `File.FatFile.Seek` | `kernel/fs/fat/fat.c:645-652` | the position is the one asked for or the end of the file; the bytes are unchanged |
| `File.FatFile.Close` | `kernel/fs/fat/fat.c:379-386` | whatever the hint, on success the device alone gives the file's data and the table |
| `Files.OtherKept` | `kernel/fs/fat/fat.c:542-642` | a file whose clusters nobody else has touched keeps its chain, its cache and its data |
| `Files.WriteBeside` | `kernel/fs/fat/fat.c:542-642` | a write to one file leaves the bytes of another open file as they were, and the two still share no cluster; a safe hint stays safe, and is needed only when the run does not fit the chain |
| `Files.RemoveBeside` | `kernel/fs/fat/usr.c:25-35` | removing a file leaves the bytes of an open file as they were, whatever the hint and whether or not it works; a hint safe for all clusters in use is safe for those left |
| `Files.Remount` | `kernel/fs/fat/fat.c:366-391` | whatever the hint, closing a file and mounting the volume again from the device alone gives the same bytes, and a safe hint exactly if it was one |
| `Queues.InExactlyOneQueue` | `kernel/pc/pc.c:13-23` | every unreaped task is in exactly one of foreground, background 1 to 3, wait and exited, once: the one its state and level name |
| `Queues.MoveKeepsQueues` | `kernel/pc/pc.c:134-181` | changing a task's record and moving it to the queue that record names keeps all queues right |
| `Steps.FindBackIs` | `kernel/pc/pc.c:749-765` | the task found is the head of the lowest occupied background level |
| `Steps.ChoiceIsReady` | `kernel/pc/pc.c:711-746` | the task chosen is ready and queued |
| `Effects.ChoiceIs` | `kernel/pc/pc.c:711-746` | which task find_next_task chooses in an orderly state |
| `Steps.HangsExactlyWhenAlone` | `kernel/pc/pc.c:677-707` | the tick finds the running task itself, and stops the machine, exactly when it is the only foreground task and the background is empty |
| `Steps.TickKeeps` | `kernel/pc/pc.c:677-707` | a tick keeps queues, levels and process numbers in order and leaves nothing to reap |
| `Effects.TickIs` | `kernel/pc/pc.c:677-707` | what a tick changes in records and queues, with 1000 counts on level 2 and 1500 on level 3 |
| `Steps.WaitKeeps` | `kernel/pc/pc.c:39-101` | waitpid keeps everything in order exactly when it is not idle that goes to sleep; a caller that sleeps is in the wait queue, out of all others, and another task runs |
| `Steps.IdleCanGoToSleep` | `kernel/pc/pc.c:39-101` | an orderly state, reached from boot, in which idle goes to sleep and leaves the foreground |
| `Effects.SleepsIs` | `kernel/pc/pc.c:49-67` | the caller of waitpid sleeps exactly when a living process has the number and is its child |
| `Effects.WaitIs` | `kernel/pc/pc.c:77-96` | a caller that sleeps has the state -p, has paid for its turn and is at the tail of the wait queue; nothing else changes, and nothing at all if it does not sleep |
| `Effects.SleeperIsWoken` | `kernel/pc/pc.c:39-132` | a caller sleeps for p, only ticks follow until process p runs and calls pc_exit: the caller is then ready again on its level |
| `Steps.ExitKeeps` | `kernel/pc/pc.c:612-673` | pc_exit keeps everything in order; the caller is in exited, its number is free, another task runs; idle is refused |
| `Steps.ExitWakesTheParent` | `kernel/pc/pc.c:105-132` | a waiting task stops waiting exactly when it is the parent waiting for the process that ends, and is then ready on its level |
| `Effects.WokenIs` | `kernel/pc/pc.c:105-132` | the waiting parent goes to the tail of the foreground or to the head of its background level; without one nothing changes |
| `Effects.ExitIs` | `kernel/pc/pc.c:612-673` | after that the caller, ended, goes to the tail of exited and its number is free; idle is refused |
| `Steps.KillKeepsExactlyWhenFirstIsAlive` | `kernel/pc/pc.c:502-575` | pc_kill keeps everything in order exactly when the first task in the list with the number is alive |
| `Steps.KillCanHitTheDead` | `kernel/pc/pc.c:535-551` | a state in which it is not: a living process loses its number |
| `Steps.ReusedIsReached` | `kernel/pc/pc.c:413-707` | a run from the state that init_pc makes comes to that state: create, tick, create, 253 creations without memory, kill, create |
| `Steps.KillWakesNobody` | `kernel/pc/pc.c:545-562` | a waiting task goes on waiting when another process is killed |
| `Effects.KillRefused` | `kernel/pc/pc.c:505-535` | numbers 0 and 1, the caller's own and those of nobody alive are refused, and exactly those; nothing changes then |
| `Effects.KillIs` | `kernel/pc/pc.c:538-562` | otherwise the first task with the number ends and goes to the tail of exited, and the number is free |
| `Steps.CreateKeeps` | `kernel/pc/pc.c:413-498` | task_create keeps everything in order, also when memory runs out |
| `Effects.CreatedIs` | `kernel/pc/pc.c:413-498` | record, queue, list, number and search position after task_create, with the levels and counts of the shell and of all others |
| `Steps.BootedIsInOrder` | `kernel/pc/pc.c:290-327` | so is the state that init_pc makes |
| `Steps.StepKeeps` | `kernel/pc/pc.c:39-707` | an operation keeps everything in order exactly when it is allowed: idle does not go to sleep, and a kill that is carried out does not find a dead process |
| `Steps.AlwaysInOrder` | `kernel/pc/pc.c:39-707` | after any run of operations that are all allowed everything is in order; kills that pc_kill refuses always are |
| `Steps.FirstNotAllowed` | `kernel/pc/pc.c:39-707` | and the first operation of a run that is not allowed ends that |
| `Steps.FirstFreeIsFirst` | `kernel/pc/pid.c:42-59` | pid_alloc finds the first free number going round, and none exactly when all it looks at are taken |
| `Steps.NoNumberLeft` | `kernel/pc/pid.c:51-53` | it fails exactly when all 256 numbers are in use |
| `Rounds.LowerLevelsFirst` | `kernel/pc/pc.c:749-765` | a tick serves a background level only when all lower levels are empty, and only after the last foreground task |
| `Rounds.CountsDoNotUnderflow` | `kernel/pc/pc.c:724-737` | a task charged has a count left; at zero it drops one level with that level's allowance; nobody else is charged |
| `Rounds.LevelsNeverRise` | `kernel/pc/pc.c:711-746` | over any run of ticks no task moves up |
| `Rounds.QuietRun` | `kernel/pc/pc.c:677-746` | over any run of ticks foreground and waiting queues stay as they are |
| `Rounds.OneRound` | `kernel/pc/pc.c:711-746` | between two background ticks every foreground task runs exactly once, in order; the background tick goes to the head of the lowest occupied level |
| `Rounds.ServedIs` | `kernel/pc/pc.c:722-741` | what one turn does to a level: its head is charged and goes to the tail of its level or of the next |
| `Rounds.LevelDrains` | `kernel/pc/pc.c:711-746` | level 1, and level 2 when level 1 is empty, is empty after exactly as many rounds as its tasks have counts left together, and not before; they are then one level down |
| `Rounds.LastLevelServesItsHeadOnly` | `kernel/pc/pc.c:724-741` | on level 3 every round ends in the state it began in: first in, first out, the head runs until it ends or waits |
| `Pid.BitAfterSet` | `kernel/pc/pid.c:56` | setting a bit of the map changes that bit only |
| `Pid.BitAfterClear` | `kernel/pc/pid.c:77` | clearing a bit changes that bit only |
| `Pid.BitIs` | `kernel/pc/pid.c:46-50` | a number is taken when its bit, shifted down, is 1 |
| `Pid.PidMap.Check` | `kernel/pc/pid.c:16-31` | whether the number is in use; never for one out of range |
| `Pid.PidMap.Alloc` | `kernel/pc/pid.c:36-62` | the first free number going round becomes used and nothing else changes |
| `Pid.PidMap.Free` | `kernel/pc/pid.c:66-81` | the number becomes free; refused if it was |
| `Scheduler.Scheduler.FindInSchedBack` | `kernel/pc/pc.c:749-765` | the loops find what the specification says |
| `Scheduler.Scheduler.FindNextTask` | `kernel/pc/pc.c:711-746` | the current task is charged and requeued, the next one chosen, as the specification says |
| `Scheduler.Scheduler.ClearExited` | `kernel/pc/pc.c:579-605` | all of exited is reaped, in the loop's order |
| `Scheduler.Scheduler.Schedule` | `kernel/pc/pc.c:677-707` | the new state is the specified tick, or the machine hangs exactly in the specified case |
| `Scheduler.Scheduler.WaitPid` | `kernel/pc/pc.c:39-101` | the new state is the specified one; the caller sleeps only for a living child of its own |
| `Scheduler.Scheduler.WakeupParent` | `kernel/pc/pc.c:105-132` | the new state is the specified one |
| `Scheduler.Scheduler.PcExit` | `kernel/pc/pc.c:612-673` | the new state is the specified one, although the caller is marked as ended before its parent is woken; idle is refused and stops the machine |
| `Scheduler.Scheduler.PcKill` | `kernel/pc/pc.c:502-575` | refuses idle, the shell, the caller and unused numbers; otherwise the specified state |
| `Scheduler.Scheduler.TaskCreate` | `kernel/pc/pc.c:413-498` | succeeds exactly when there are a number and memory; the new state is the specified one |
| `PageTable.IndicesByShift` | `kernel/pc/page.c:13-14` | the shifts and the mask give directory and table index of the page |
| `PageTable.TableAdded` | `kernel/pc/page.c:20-30` | a new zeroed table changes no translation |
| `PageTable.EntrySet` | `kernel/pc/page.c:43-45` | because no table is shared, a stored entry shows at one page only |
| `PageTable.PageTable.MapOne` | `kernel/pc/page.c:8-50` | the flat table changes at the one page and the directory entry gets table address and attributes; fails exactly when a table is needed and memory is not to be had, and then changes nothing |
| `PageTable.PageTable.Map` | `kernel/pc/page.c:53-71` | the flat table changes at the pages mapped, in order; a failure leaves exactly a mapped prefix |
| `PageTable.MappedIs` | `kernel/pc/page.c:56-66` | page va + i leads to frame pa + i for all i below the count, every other page is as before |
| `PageTable.PagesMapped` | `kernel/pc/page.c:53-71` | the same in numbers: the page of va + i * 0x1000 leads to the frame of pa + i * 0x1000 |
| `PageTable.PageTable.constructor` | `kernel/vm/vm.c:22-26` | the new directory maps nothing |
| `PageTable.MmCreate` | `kernel/vm/vm.c:12-33` | succeeds exactly when both allocations do, with a directory that maps nothing; a structure without a directory is given back |
| `PageTable.PageTable.Delete` | `kernel/vm/vm.c:48-76` | the two loops free, in order, what `Released` lists; `ReleasedAre` says what that is |
| `PageTable.ReleasedAre` | `kernel/vm/vm.c:53-72` | every table and every page frame is passed to kfree and nothing else; no address twice exactly when no page frame address is shared between pages or is itself a table |
| `PageTable.DeleteFreesEachOnce` | `kernel/vm/vm.c:48-76` | the same with the directory itself |
| `Teardown.Kfree` | `kernel/mm/myslab.c:261-270` | an address in a slab page goes to the slab system; for any other the block that starts there, with the order its descriptor shows, is free, and all other blocks keep state and flag |
| `Teardown.PhysicalIs` | `kernel/mm/myslab.c:264` | stripping the top bit is keeping the other 31 |
| `Teardown.FreeAll` | `kernel/mm/myslab.c:261-267` | addresses of different allocated blocks that are no slab pages, freed one after the other: those blocks are free and no other frame |
| `Teardown.DeleteIsSafeExactlyWhenOwn` | `kernel/vm/vm.c:48-76` | what pgd_delete passes to kfree are addresses of different allocated blocks, none a slab page, exactly when every table, every mapped frame and the directory is the first frame of such a block of its own, compared without the top bit |
| `Teardown.DeleteSpace` | `kernel/vm/vm.c:48-76` | then, with kfree and the buddy system behind it, exactly the blocks of tables, mapped frames and directory have become free |
| `Teardown.PagesOfOneBlock` | `kernel/pc/pc.c:974-1003` | two pages that lead into one allocated block break that condition, as the loader's mapping of one block page by page does |
| `Teardown.SlabPageMapped` | `kernel/mm/myslab.c:266-269` | a page that leads into a slab page breaks that condition |
| `Teardown.TopBitHidesASharedFrame` | `kernel/mm/myslab.c:264` | a page table on which no address is passed to kfree twice and yet the condition fails |
| `PageCache.HashInTable` | `kernel/vfs/vfscache.c:405-408` | the mask is the remainder, so the bucket exists |
| `PageCache.BucketSearch` | `kernel/vfs/vfscache.c:297-310` | searching one bucket finds what a search of the whole recency list finds |
| `PageCache.InOneBucket` | `kernel/vfs/vfscache.c:340-341` | a page is in the bucket of its location and in no other, once |
| `PageCache.PageCache.LookUp` | `kernel/vfs/vfscache.c:286-325` | the answer is that of a linear search by block and inode, and the page found becomes the most recent |
| `PageCache.PageCache.Add` | `kernel/vfs/vfscache.c:328-347` | the new page is the most recent; on a full cache exactly the least recently used page goes, written back first exactly if bit 0 of its state is set; the size never exceeds the capacity |
| `PageCache.PageCache.PutLRU` | `kernel/vfs/vfscache.c:350-370` | exactly the last page of the recency list leaves list and bucket, written back exactly if bit 0 of its state is set |
| `SlabPage.SlotsDoNotOverlap` | `kernel/mm/myslab.c:97-98` | two slots of a page share no byte and lie between header and end |
| `SlabPage.SlabPage.constructor` | `kernel/mm/myslab.c:54-69` | a formatted page has no objects and an empty free chain, its first slot at byte 12 |
| `SlabPage.SlabPage.TakeFree` | `kernel/mm/myslab.c:83-91` | the head of the free chain leaves it and is the object |
| `SlabPage.SlabPage.Carve` | `kernel/mm/myslab.c:95-118` | the next unused part of the page is the object; the page is full exactly when one more slot would reach byte 4096 |
| `SlabPage.SlabPage.Alloc` | `kernel/mm/myslab.c:82-118` | the object lies inside the page behind the header and overlaps no live one; none exactly when the chain is empty and the page full |
| `SlabPage.SlabPage.Free` | `kernel/mm/myslab.c:174-179` | the object becomes the head of the free chain, every other live object keeps its contents |

## Left out

- File.FatFile.Close: the write of the directory entry and the directory buffers are not modelled.
- File.FatFile.constructor: the search for the directory entry is not modelled; start cluster, size and chain are given.
- Volume.FatVolume.Alloc: what follows once a hint has led to an entry that is no data cluster's is not modelled; `Volume.OnlyNoHintLeavesTheData` says when that happens and `Volume.NoHintErasesTheSecondCopy` what is erased.
- Volume.FatVolume.Reserve: the same.
- Volume.FatVolume.Mark: the same.
- Volume.FatVolume.AllocThenFlush: the same.
- File.FatFile.Write: not promised for a run that needs a cluster when the hint is not safe, where fs_alloc may take another file's cluster (`Volume.FatVolume.Reserve`), or when there is none to take and the device reaches the sector of entry 0xffffffff (`Volume.FatVolume.AllocThenFlush`).
- Files.Remount: start cluster, size and chain are carried over and not read back from the directory entry.
- Files.RemoveBeside: the change of the directory entry of the removed file is not modelled.
- Scheduler.Scheduler.PcExit: the change of register context is not modelled; the endless loop that idle would enter is the result `stopped`.
- Scheduler.Scheduler.Schedule: the endless loop of the code when it finds nobody else to run is the result `hung`.
- PageTable.PageTable.MapOne: attributes are below the page size, as the only value in use is; larger ones would run into the frame number.
- Teardown.Kfree: what slab_free then does with an address in a slab page is not modelled here; inside one page it is `SlabPage.SlabPage.Free`.
- PageCache.PageCache.PutLRU: the list of a file's own cached pages and the release of memory are not modelled.
- SlabPage.SlabPage.Free: an object not in use is excluded; the code tests for an empty page only.
- Bakery.MutualExclusion: ticket numbers do not overflow; `kernel/lock/Makefile` builds the flag of `lock.c` in place of this file.
- Lists of the scheduler and the page cache are sequences; pointer surgery is verified for the buddy lists (`List`), which use the same header.
- Freed task structures: the code never gives their memory back, and the model keeps their records.
- Boot memory, slab page migration between lists, VMA lists, directory search and creation, 8.3 names, VFS path walking, ext2, dentry cache, drivers, shell, editor and time display.
- `kernel/lock/lock.c` is a bare flag without an algorithm.

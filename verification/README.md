# PFS, PRAID and PPD: a verified model

A FAT32 file system (PFS) reads and writes sectors through a broker (PRAID) that mirrors them over several disk
servers (PPD), each of which reorders its requests by seek distance. This project models the four parts and a small
directory codec, and proves what they promise of every input, every interleaving and every run.

| files | part of the system |
|---|---|
| `geometry`, `queue` | sector arithmetic of a disk; the linked queue used everywhere |
| `taker`, `fscan`, `hazards`, `batch_order`, `scheduler_runs`, `batch_runs`, `log_clash`, `service_bound` | the disk server: choosing, sweeping, its two threads |
| `request_table`, `mirror`, `mirror_proof`, `mirror_theorems`, `mirror_dispatch`, `split_reply` | the broker: its table of requests, the mirror as a transition system |
| `bytes`, `fat_chains`, `fat_runs`, `disk`, `fat_table`, `fat32`, `truncated_bytes`, `folder` | the file system: allocation table, clusters on disk, truncate and remove, the directory they rewrite |
| `cache`, `cache_recency`, `cache_blocks`, `file_bytes`, `piecewise`, `file_data` | the data path: block cache, read, write, flush |
| `directory`, `directory_entries` | the directory cluster: parsing, create, remove, update |

Code that works in place (queues, the request table, the allocation table, cache blocks, directory buffers, the taker's
globals) is a class or an array whose methods are proved against functions on values; the protocols (two threads of the
disk server, broker and mirrors) are transition systems with one action per shared access, and their theorems hold in
every state of every run.

## What the proofs found

Where the code does not keep what it seems to intend, the model follows the code and states exactly when it holds.

* A request that is not a write is served after every later write to its sector that its batch holds. A batch is served in
  arrival order sector by sector if and only if no such request stands in front of a write to its own sector
  (`BatchOrder.SectorOrderIff`).
* The log reads the queues without the mutex: at level INFO the consumer lists the active queue and, under FSCAN, the
  passive one, and for each logged request it looks ahead at the next. The receiver and the consumer can come to be on one
  queue if and only if the level is INFO, or the algorithm is SSTF and trace requests are sent
  (`LogClash.ClashPossibleIff`).
* `TAKER_turnToSectorNum` inverts `COMMON_turnToCHS` if and only if there is one head or the sector is in cylinder 0.
* The count of replies is decremented under the lock and tested outside it: exactly one thread goes on to answer a write in
  every run if and only if the mirror has a single disk (`SplitReply.AlwaysAnsweredOnceIffOneDisk`). In a given run it is
  one if and only if every other thread had tested before the last one decremented. Never is it none.
* The number of clusters a read or write goes through is the rounded-up length over the cluster size; it is right if and
  only if the range does not start too far into its first cluster. Otherwise a write loses its tail, and a read hands back
  what lies past its buffer (`FileBytes.ReadIsRightIff`).
* A write that misses the cache leaves a clean block: the cache stays coherent if and only if the cache is off, the cluster
  is held, or the write changes nothing, and under exactly that condition a later flush does not lose the write
  (`FileCaches.WriteIsDurableIff`). A whole write leaves the cache coherent and showing its data if and only if each of its
  pieces met that condition at its turn (`Piecewise.WholeWriteIff`).
* After a truncation the open file's first cluster is right if and only if the file was and is empty, or was not and is
  not.
* A file that grows reads zeros past its old end if and only if its last cluster already held zeros there; a shrink that
  gives clusters back does not clear that tail.
* With a signed `char`, the comparison with 0xE5 never holds, so slots of removed files are never used again: a directory
  cluster takes exactly as many creations as it has pairs of slots past its first terminator, 64 when blank. The scan keeps
  a terminator to stop at if and only if those pairs do not fill the cluster to its last slot
  (`DirectoryEntries.CreationsAreLimited`).

## Model

| member | source | states |
|---|---|---|
| `Geometry.NumberingInvertsConversion` | PPD/src/ppd_taker.c:165-171 | a sector number survives conversion to CHS and back exactly when the disk has one head or the sector is in cylinder 0 |
| `Geometry.NumberingLoses` | PPD/src/ppd_common.c:30-37 | how far the number that comes back is off: one cylinder's worth for every head beyond the first |
| `Geometry.ConversionInvertsNumbering` | PPD/src/ppd_common.c:30-37 | on one head, a CHS position survives numbering and conversion |
| `Geometry.ReachedSectorInRange` | PPD/src/ppd_taker.c:266-276 | the sector under the head after a seek is a sector of the track |
| `Geometry.ReachedSectorIs` | PPD/src/ppd_taker.c:266-276 | where the arm arrives, for each track crossed the least number of sectors has passed whose time is no shorter than the track's |
| `Geometry.RotationIsModular` | PPD/src/ppd_taker.c:184-199 | the rotational distance is (requested - reached) modulo the sectors of a track, and less than a full turn |
| `Geometry.RotationIsLeast` | PPD/src/ppd_taker.c:192-199 | it is the least wait that brings the requested sector under the head |
| `Geometry.RotationIsWait` | PPD/src/ppd_taker.c:184-199 | a wait of less than a turn that brings the sector under the head is the rotational distance |
| `Geometry.TraceStartsWhereTheArmArrived` | Commons/src/log.c:245-250 | the trace printer recomputes the sector the scheduler reached and ends at the one requested |
| `Geometry.HeadStaysOnTrack` | PPD/src/ppd_taker.c:201-205 | after serving a sector the head position is the next sector of the same track |
| `Queues.Queue.Append` | Commons/src/tad_queue.c:24-42 | adds at the end, keeping order, end pointer and all earlier nodes |
| `Queues.Queue.Take` | Commons/src/tad_queue.c:44-50 | removes the first node, or returns null and changes nothing; the end pointer follows |
| `Queues.Queue.RemoveAfter` | PPD/src/ppd_taker.c:132-147 | unlinks exactly one request, keeps the others in order and the end pointer right |
| `Queues.Queue.Length` | Commons/src/tad_queue.c:113-123 | the number of nodes reachable from the first |
| `Taker.FirstBestIsUnique` | PPD/src/ppd_taker.c:207-263 | at most one position is the first minimal one, so what the search returns is fully determined |
| `Taker.Pick` | PPD/src/ppd_taker.c:207-263 | the position chosen is minimal in (reachable in the direction, cylinder distance, write before the rest) and the first such |
| `Taker.ReachableIffSomeSatisfies` | PPD/src/ppd_taker.c:255-262 | the search reports failure exactly when no queued request lies in the direction |
| `Taker.TurnsOnlyWhenNoneAhead` | PPD/src/ppd_FSCAN.c:15-27 | the arm turns exactly when no queued request lies ahead of it, else it chooses from where it stands; the choice is the first minimal one from there |
| `Taker.TurnsAtTheExtreme` | PPD/src/ppd_FSCAN.c:30-52 | a turn is made on the extreme cylinder, at the sector that has come up by then, into the opposite direction |
| `Taker.DistanceTimeIs` | PPD/src/ppd_taker.c:173-182 | the time of a seek is the tracks crossed times the track time, and the least wait that brings the sector up times the sector time |
| `Taker.SetOffReachesTheChoice` | PPD/src/ppd_FSCAN.c:15-27 | the request finally chosen lies in the direction of the arm; after a turn at the extreme, every queued request does |
| `Taker.MoveReachesCylinder` | PPD/src/ppd_FSCAN.c:40-52 | the trip to an extreme ends on that cylinder, at the sector reached, inside the disk |
| `Taker.Consumer.GetNextNode` | PPD/src/ppd_taker.c:235-263 | the pointer walk returns the node in front of the chosen request, and finds one exactly when one is reachable |
| `Taker.Consumer.MoveHeadPos` | PPD/src/ppd_FSCAN.c:30-52 | moves the trace position to the extreme of the direction and returns the time of the seek |
| `Taker.Consumer.FscanGetNext` | PPD/src/ppd_FSCAN.c:15-27 | turns if and only if no queued request lies ahead of the head; with no turn the arm stays; the choice is the first minimal one from where the arm then is; the delay is the trip's |
| `Taker.Consumer.TakeRequest` | PPD/src/ppd_taker.c:132-152 | unlinks the choice and adds its seek and rotation time to the delay of the trip |
| `Taker.Consumer.ServeNext` | PPD/src/ppd_taker.c:42-62 | one turn of the FSCAN loop: whether the arm turns, which request is served, what stays queued, where the arm ends, and the time of trip, seek and rotation |
| `Fscan.BatchTurnsAtMostOnce` | PPD/src/ppd_FSCAN.c:15-52 | a frozen batch is served in at most two monotone sweeps, the first over exactly the requests at or beyond the arm; the tracks crossed are those of the sweeps and the trip to the extreme, at most 2 * (cylinders - 1) |
| `Fscan.SweepWhenAllAhead` | PPD/src/ppd_taker.c:207-263 | with all requests ahead the batch is one monotone sweep that never passes the extreme, in as many tracks as lie between the arm and the last request |
| `Fscan.SweepBackWhenNothingAhead` | PPD/src/ppd_FSCAN.c:19-24 | with none ahead the batch is one sweep back from the extreme, its tracks and those of the trip |
| `Fscan.BatchServesEachOnce` | PPD/src/ppd_taker.c:132-152 | every request of the batch is served exactly once |
| `Hazards.PickIsHazardFree` | PPD/src/ppd_taker.c:207-233 | no earlier write to the same sector stands in front of the chosen request, under SSTF and both FSCAN directions |
| `Hazards.OnlyWritesOvertake` | PPD/src/ppd_taker.c:218-220 | a request that overtakes another to its own sector is a write overtaking a non-write |
| `Hazards.NonWriteWaitsForWrites` | PPD/src/ppd_taker.c:216-220 | from any queue, no request that is not a write is chosen while a write to its sector is waiting |
| `Hazards.ReadThenWriteIsReordered` | PPD/src/ppd_taker.c:218-220 | a witness: of two requests in reach, a read and then a write to its sector, the write is chosen |
| `BatchOrder.LaterWriteGoesFirst` | PPD/src/ppd_taker.c:207-263 | in any frozen batch, a request that is not a write is served after every later write to its sector |
| `BatchOrder.SectorOrderIff` | PPD/src/ppd_taker.c:207-263 | a batch is served in arrival order sector by sector if and only if no request that is not a write stands in front of a write to its own sector |
| `Hazards.ServingKeepsOrderSafe` | PPD/src/ppd_taker.c:132-152 | serving a hazard-free position keeps write-then-write and write-then-read order over everything served and waiting |
| `Hazards.QueuingKeepsOrderSafe` | PPD/src/ppd_comm.c:82-88 | so does queuing a new request |
| `SchedulerRuns.MutualExclusionKept` | PPD/src/ppd_comm.c:84-88 | the mutex is held exactly by the thread inside its critical section |
| `SchedulerRuns.CountsKept` | PPD/src/ppd.c:83-86 | free slots plus requests held, queued and in service stay 5000; element tokens stay equal to requests not yet claimed |
| `SchedulerRuns.NoInterferenceKept` | PPD/src/ppd_qManager.c:8-64 | the receiver targets the passive queue, the consumer serves from the active one and never finds it empty, across the flag's toggles |
| `SchedulerRuns.BacklogStep` | PPD/src/ppd_qManager.c:15-64 | seen from outside, both threads and both queues act as one queue in arrival order: append at the end, or serve a hazard-free position |
| `SchedulerRuns.EveryStateOfEveryRun` | PPD/src/ppd_taker.c:42-130 | all of these invariants hold in every state of every interleaving, under SSTF and FSCAN, at every log level |
| `SchedulerRuns.RunsAreSafe` | PPD/src/ppd_comm.c:79-98 | the receiver never appends to a queue the consumer is choosing or taking from, the selected queue is never empty, slots are conserved, no request is lost, earlier conflicting writes go first |
| `LogClash.ClashPossibleIff` | PPD/src/ppd_common.c:71-163 | the receiver can be about to append to a queue the consumer is reading if and only if the level is INFO, or the algorithm is SSTF and trace requests are sent |
| `LogClash.ClashNeedsCue` | PPD/src/ppd_common.c:134-163 | no run under any other setup comes to such a state |
| `LogClash.ClashUnderFscanInfo` | PPD/src/ppd_common.c:118-143 | a run under FSCAN at level INFO in which it appends to the passive queue being listed |
| `LogClash.ClashUnderSstfInfo` | PPD/src/ppd_common.c:91-140 | a run under SSTF at level INFO in which it appends to the queue being listed |
| `LogClash.ClashUnderSstfTrace` | PPD/src/ppd_common.c:71-76 | a run under SSTF at another level in which it appends to the queue being searched after a trace request |
| `LogClash.LogHasOneWriter` | PPD/src/ppd_comm.c:90-98 | the receiver writes to the log only while the consumer does not |
| `LogClash.ReportsBeforeTheNext` | PPD/src/ppd_comm.c:90-98 | at level INFO it reports each request it queued before it takes the next |
| `SchedulerRuns.NeverDeadlocked` | PPD/src/ppd_taker.c:42-92 | while a request is held, queued or in service some thread can move |
| `BatchRuns.ArmFollowsTheRequests` | PPD/src/ppd_taker.c:128-205 | in every state of every run, with nothing in hand, the arm is on the cylinder of the last request taken, one sector on |
| `BatchRuns.SstfTakesTheNearest` | PPD/src/ppd_taker.c:207-263 | in every SSTF run each request taken is nearest in cylinders to the one taken before |
| `BatchRuns.RunServesTheBatch` | PPD/src/ppd_qManager.c:15-64 | in every FSCAN run the requests taken between two toggles are the start of what serving the frozen batch alone takes, and all of it once the batch is used up |
| `BatchRuns.RunSweepsTheBatch` | PPD/src/ppd_FSCAN.c:15-52 | so they are served in the two sweeps of that batch, within its bound on tracks |
| `BatchRuns.RunKeepsSectorOrder` | PPD/src/ppd_taker.c:207-263 | and in arrival order sector by sector, if no write stood behind a non-write to its sector in it |
| `ServiceBound.RunIsHistory` | PPD/src/ppd_qManager.c:15-64 | every FSCAN run is a history of appends to the passive batch, swaps when the active one is drained, and single removals |
| `ServiceBound.ActiveBound` | PPD/src/ppd_qManager.c:15-32 | a request of the active batch is served within as many picks as the batch has requests |
| `ServiceBound.PassiveBound` | PPD/src/ppd_qManager.c:15-64 | a queued request is served within (left in the active batch) + (its own batch when frozen) picks |
| `RequestTables.RequestTable.AddNew` | PRAID/src/request_handler.c:19-33 | appends a request counting all disks, leaving the others alone |
| `RequestTables.RequestTable.Search` | PRAID/src/request_handler.c:66-84 | finds the first request with the key, null without one |
| `RequestTables.RequestTable.Take` | PRAID/src/request_handler.c:35-64 | unlinks exactly that request; without one, changes nothing |
| `RequestTables.RequestTable.Confirm` | PRAID/src/ppd_thread.c:80-94 | counts one reply; the entry goes, and its own client is answered, on the last |
| `RequestTables.SelectByLessRequests` | PRAID/src/ppd_queue.c:36-73 | takes the first ready disk not asked yet, else clears all marks and takes the first disk |
| `RequestTables.ReadsUseUpTheIdle` | PRAID/src/ppd_queue.c:43-56 | while some disk is unmarked, each read marks one, whatever marks there were |
| `RequestTables.ReadsGoRoundRobin` | PRAID/src/ppd_queue.c:36-73 | from any marks earlier reads and writes left, once the unmarked ready disks have had a read each, reads alone go round the disks in turn |
| `MirrorProof.StepKeepsInv` | PRAID/src/praid.c:153-177 | arrival, forwarding, service and reply keep: messages genuine and in one place, stores exactly as far as the writes applied, counts exact, replies fresh |
| `MirrorProof.ReplyFindsItsRequest` | PRAID/src/ppd_thread.c:83-98 | the key in a reply always finds the entry of the very request it answers |
| `MirrorProof.OlderWritesAreApplied` | PPD/src/ppd_taker.c:101-130 | when a disk serves a write, it has applied every older write to that sector |
| `MirrorProof.EveryStateOfEveryRun` | PRAID/src/ppd_thread.c:78-113 | the invariant holds in every state of every interleaving of broker threads and disks |
| `MirrorTheorems.ReadReturnsAcknowledgedWrite` | PRAID/src/praid.c:153-177 | a read that arrives after a write was acknowledged returns that write's data or a later one's, whichever mirror serves it |
| `MirrorTheorems.MirrorsAgree` | PRAID/src/ppd_thread.c:78-113 | with no write outstanding all disks hold equal contents: in every sector the last write that arrived, or the initial data |
| `MirrorTheorems.AnsweredOnceAfterTheLastReply` | PRAID/src/ppd_thread.c:80-113 | a pending write's count is the number of disks yet to reply; each request is answered at most once, to its own client, and exactly when no disk owes a reply |
| `MirrorTheorems.StepsFinishWork` | PRAID/src/ppd_thread.c:53-113 | every step other than an arrival finishes one unit of work |
| `MirrorTheorems.NeverStuck` | PRAID/src/ppd_thread.c:53-113 | while a request is pending some thread or disk can move, so with the measure above every request gets its answer |
| `MirrorTheorems.SchedulerChoiceIsAllowed` | PPD/src/ppd_taker.c:207-263 | the positions a disk of the mirror may serve are exactly those the scheduler's hazard freedom allows |
| `MirrorDispatch.ReadsTakeTurns` | PRAID/src/praid.c:155-176 | in every run a read waits on no disk other than the one whose turn it is: reads in a row take the disks in turn, from the first one after every write, and at the start if none is marked |
| `MirrorDispatch.ReadGoesWhereItsTurnIs` | PRAID/src/praid.c:173-175 | and when it arrives it waits on that disk |
| `MirrorDispatch.ReadsAloneGoRound` | PRAID/src/ppd_queue.c:36-73 | from unmarked disks, when only reads arrive, the k-th waits on no disk other than k modulo their number |
| `MirrorDispatch.ReadAfterWriteGoesToTheFirst` | PRAID/src/praid.c:158-168 | whatever the marks before, the read after a write waits on the first disk alone |
| `MirrorDispatch.EntriesNameTheirDisks` | PRAID/src/request_handler.c:19-33 | in every run a read's entry names the one disk that may still owe its reply, a write's none |
| `SplitReply.AlwaysAnsweredOnceIffOneDisk` | PRAID/src/ppd_thread.c:82-89 | exactly one thread passes the test in every complete run if and only if there is one disk |
| `SplitReply.NobodyIsForgotten` | PRAID/src/ppd_thread.c:82-89 | in every complete run at least one thread passes the test |
| `SplitReply.AllMayAnswer` | PRAID/src/ppd_thread.c:82-89 | for any number of disks, a run in which all threads pass it |
| `SplitReply.AnsweredOnceIffOthersHadTested` | PRAID/src/ppd_thread.c:82-89 | in a given run exactly one thread goes on to answer if and only if all others had tested when the last one decremented |
| `SplitReply.BothAnswer` | PRAID/src/ppd_thread.c:82-91 | two threads that decrement before either tests both go on to answer |
| `FatChains.ChainsAreAcyclic` | PFS/src/tad_fat.c:46-53 | a chain never comes back to a cluster |
| `FatChains.SameTail` | PFS/src/tad_fat.c:46-53 | two chains through one cluster end together |
| `FatChains.ChainIsUnique` | PFS/src/tad_fat.c:22-63 | the first cluster determines the chain |
| `FatChains.EndMarks` | PFS/src/tad_fat.c:336-339 | the eight end-of-chain marks, none of them a cluster's number |
| `FatChains.FreeListIsFreeSet` | PFS/src/tad_fat.c:65-85 | the free list holds each free cluster once and its length is their number |
| `FatChains.FreeListHead` | PFS/src/tad_fat.c:65-105 | its head is the lowest free cluster |
| `FatChains.LinkedIsChain` | PFS/src/tad_fat.c:207-236 | linking the lowest free cluster extends the chain by it |
| `FatChains.UnlinkedIsChain` | PFS/src/tad_fat.c:238-275 | removing the last cluster leaves the chain without it |
| `FatChains.FreeOrOwnedOnce` | PFS/src/tad_fat.c:207-275 | in a well-kept volume a cluster is in use exactly when some chain has it, and then one chain has it, at one place |
| `FatChains.OthersUntouched` | PFS/src/pfs_fat32.c:332-451 | growing, shrinking or removing one file leaves every other chain's entries as they are |
| `FatChains.StepKeepsPartition` | PFS/src/pfs_fat32.c:332-451 | each such step keeps the partition: chains terminated and disjoint, nothing leaked, nothing shared |
| `FatRuns.EveryVolumeOfEveryRun` | PFS/src/pfs_fat32.c:332-451 | a volume that starts partitioned stays so under every sequence of creations, growths, shrinkings and removals, no chain repeats a cluster, and every operation whose guard holds takes effect |
| `FatRuns.UnnamedFileKept` | PFS/src/pfs_fat32.c:332-451 | over every such run a file no operation names keeps its chain and all its table entries |
| `FatRuns.FreeCountAfterStep` | PFS/src/tad_fat.c:207-275 | each step changes the free count by exactly the clusters taken or given back |
| `FatRuns.UnlinkUndoesLink` | PFS/src/tad_fat.c:207-275 | remove-last after link restores the table, up to which end mark the chain carries |
| `FatRuns.ResizeOutcome` | PFS/src/pfs_fat32.c:340-387 | a resize gives exactly the clusters asked for, keeps the common prefix, adds free clusters only, changes the free count by the difference, and leaves other files alone |
| `FatRuns.ResizeTakesTheLowest` | PFS/src/pfs_fat32.c:361-387 | a file that grows gets the first clusters of the free list, in order |
| `FatRuns.ResizeKeepsReserved` | PFS/src/pfs_fat32.c:343-387 | a resize leaves the first two entries of the table, the end mark among them, as they are |
| `FatRuns.ReservedInEveryRun` | PFS/src/tad_fat.c:164 | and so does every run |
| `Bytes.WordsSurviveBytes` | PFS/src/tad_fat.c:150-164 | table entries survive their little-endian bytes |
| `Bytes.BytesSurviveWords` | PFS/src/tad_fat.c:150-164 | and bytes survive the entries read from them |
| `Bytes.LowByteFirst` | PFS/src/tad_fat.c:150-164 | each entry takes four bytes, the lowest first |
| `Disks.ClustersAreDisjoint` | PFS/src/tad_cluster.c:59-72 | distinct clusters have disjoint runs of sectors, none of them in the table |
| `Disks.ClustersFollowTheTables` | PFS/src/tad_cluster.c:59-72 | cluster 2 begins right after the tables, and clusters follow in a row of 8 sectors each |
| `Disks.ReconstructData` | PFS/src/pfs_comm.c:270-287 | for any order of the responses the buffer holds the requested sectors in request order |
| `Disks.Disk.ReadSectors` | PFS/src/pfs_comm.c:84-158 | the counting loop ends and returns the sectors asked for, whatever order the answers come in |
| `Disks.Disk.WriteSectors` | PFS/src/pfs_comm.c:160-229 | the counting loop ends with each listed sector written and no other, whatever order the disks apply the requests in, earlier writes to a sector first |
| `Disks.AppliedEarly` | PFS/src/pfs_comm.c:174-224 | applying a write before earlier ones to other sectors makes no difference |
| `Disks.Disk.SectorNumbers` | PFS/src/tad_cluster.c:59-72 | the sector numbers of a cluster in order |
| `Disks.Disk.ReadCluster` | PFS/src/pfs_fat32.c:41-70 | returns the cluster's contents |
| `Disks.Disk.NewCluster` | PFS/src/tad_cluster.c:27-57 | pairs each sector of the cluster with its stretch of the data |
| `Disks.Disk.WriteCluster` | PFS/src/pfs_fat32.c:36-39 | a later read of that cluster returns what was written, every other cluster and the table are unchanged |
| `FatTables.TableSurvivesDisk` | PFS/src/tad_fat.c:130-171 | a table whose sectors are all on disk is read back as it was |
| `FatTables.EntryOnDisk` | PFS/src/tad_fat.c:138-158 | entry k of a table on disk is in sector 32 + k / 128 at byte 4 * (k mod 128), lowest byte first |
| `FatTables.FatTable.Read` | PFS/src/tad_fat.c:130-171 | the table in memory is the one on disk, all sectors clean |
| `FatTables.FatTable.SearchSectorByPointer` | PFS/src/tad_fat.c:312-334 | finds the sector that holds an entry, null past the table |
| `FatTables.FatTable.SetEntry` | PFS/src/tad_fat.c:107-128 | changes one entry, and every sector still marked clean equals its copy on disk |
| `FatTables.FatTable.SetUsedCluster` | PFS/src/tad_fat.c:107-116 | marks one entry as end of chain, keeping clean sectors equal to the disk |
| `FatTables.FatTable.SetFreeCluster` | PFS/src/tad_fat.c:118-128 | frees one entry, keeping clean sectors equal to the disk |
| `FatTables.FatTable.LinkedClusters` | PFS/src/tad_fat.c:22-63 | lists exactly the chain of the first cluster |
| `FatTables.FatTable.FreeClustersList` | PFS/src/tad_fat.c:65-85 | lists exactly the free clusters in order |
| `FatTables.FatTable.NextFreeCluster` | PFS/src/tad_fat.c:87-105 | the lowest free cluster, 0 when the volume is full |
| `FatTables.FatTable.LastLinked` | PFS/src/tad_fat.c:290-309 | the last cluster of the chain |
| `FatTables.FatTable.NextLinked` | PFS/src/tad_fat.c:277-288 | the chain's next cluster |
| `FatTables.FatTable.LinkFreeCluster` | PFS/src/tad_fat.c:207-236 | the table becomes the one with the lowest free cluster linked at the chain's end, that cluster is returned |
| `FatTables.FatTable.RemoveLastLinkedCluster` | PFS/src/tad_fat.c:238-275 | the table becomes the one with the chain's last cluster freed; returns it, or 0 when it was the only one |
| `FatTables.FatTable.WriteTable` | PFS/src/tad_fat.c:173-205 | afterwards the whole table is on disk, though only sectors marked modified were written, and no cluster changed |
| `Fat32.ClustersForIsCeiling` | PFS/src/pfs_fat32.c:340-341 | the number of clusters computed from a size is the least that holds it |
| `Fat32.FileSystem.FirstClusterIffNonempty` | PFS/src/pfs_fat32.c:354-375 | a file's first-cluster field is 0 exactly when its size is |
| `Fat32.FileSystem.CreateFile` | PFS/src/pfs_fat32.c:282-285 | a new file has no cluster and no bytes, and the volume is otherwise unchanged |
| `Fat32.FileSystem.AddFirstCluster` | PFS/src/pfs_fat32.c:366-377 | an empty file gets the lowest free cluster, filled with zeros |
| `Fat32.FileSystem.LinkClusters` | PFS/src/pfs_fat32.c:361-387 | links exactly the clusters needed and zeroes each |
| `Fat32.FileSystem.DropClusters` | PFS/src/pfs_fat32.c:343-360 | gives back exactly the last clusters; the first cluster is 0 once none is left |
| `Fat32.FileSystem.ClearTail` | PFS/src/pfs_fat32.c:395-402 | clears the last cluster from the new size on, nothing else |
| `Fat32.FileSystem.ResizeChain` | PFS/src/pfs_fat32.c:338-405 | chain, table, cluster contents and first cluster after the three branches |
| `Fat32.FileSystem.Truncate` | PFS/src/pfs_fat32.c:332-405 | the file's part of a truncation: chain of ceil(size / cluster) clusters with the old prefix, new ones from the head of the free list, free count, reserved entries and other files untouched, contents, entry, table on disk |
| `Fat32.FileSystem.Remove` | PFS/src/pfs_fat32.c:436-447 | the file's part of a removal: frees exactly its chain, forgets its entry, leaves all cluster contents, table on disk |
| `Folders.Folder.Truncate` | PFS/src/pfs_fat32.c:332-424 | a truncation with the entry rewritten on the disk: the directory's slots go on listing every file with its first cluster and size, other records, files and clusters unchanged |
| `Folders.Folder.Remove` | PFS/src/pfs_fat32.c:426-451 | a removal with the slots marked on the disk: exactly that record leaves the parsed directory and exactly that chain the volume |
| `Folders.Folder.Create` | PFS/src/pfs_fat32.c:251-296 | a creation on the disk: succeeds exactly when a pair of slots is left before the last, and appends the record of an empty file when a terminator still fits |
| `Folders.ListsAfterRewrite` | PFS/src/pfs_fat32.c:407-417 | rewriting one entry keeps the slots and the volume's files in agreement |
| `Folders.ListsAfterRemoval` | PFS/src/pfs_fat32.c:431-434 | so does marking one record's slots |
| `Folders.ListsAfterCreation` | PFS/src/pfs_fat32.c:287-289 | and so does a new pair |
| `TruncatedBytes.ResizeTruncates` | PFS/src/pfs_fat32.c:332-405 | every truncation of a well-kept volume is one the next four lemmas speak of |
| `TruncatedBytes.ByteAfter` | PFS/src/pfs_fat32.c:361-402 | which byte stands at each place of the file's clusters after a truncation |
| `TruncatedBytes.OtherClustersKept` | PFS/src/pfs_fat32.c:343-402 | clusters that are not the file's afterwards keep their bytes, those given back too |
| `TruncatedBytes.TruncationKeepsBytes` | PFS/src/pfs_fat32.c:332-424 | all bytes inside both the old and the new size are kept |
| `TruncatedBytes.GrowthReadsZerosIff` | PFS/src/pfs_fat32.c:379-405 | growth shows zeros past the old end exactly when the old last cluster held zeros there |
| `TruncatedBytes.RoomAfterShrink` | PFS/src/pfs_fat32.c:343-402 | shrinking clears the tail of the last cluster when no cluster goes, and leaves it as it was otherwise |
| `FileCaches.Lru` | PFS/src/file_cache.c:18-35 | the oldest block, the first such; none when no block is older than now |
| `FileCaches.CapacityIs` | PFS/src/file_cache.c:79-80 | the cache holds as many blocks of 4096 bytes as fit its size |
| `FileCaches.ReadChangesNothing` | PFS/src/pfs.c:342-363 | a read through the cache, hit or miss, leaves the view of cache over disk unchanged and the cache coherent |
| `FileCaches.WriteCoherentIff` | PFS/src/file_cache.c:57-110 | a write shows in the view, and keeps the cache coherent exactly when it hits, the cache is off, or it changes nothing |
| `FileCaches.WriteIsDurableIff` | PFS/src/file_cache.c:77-108 | a flush after a write brings it to the disk under exactly that condition; otherwise the write is lost |
| `FileCaches.FlushWritesView` | PFS/src/pfs.c:371-402 | a flush empties the cache and makes the disk equal the view |
| `FileCaches.CacheIsInvisible` | PFS/src/pfs.c:318-571 | over every run from a coherent cache of reads, write hits, evictions and flushes: clusters stay distinct, blocks within capacity, clean blocks equal to the disk, and the view is what the writes alone, without a cache, would have made |
| `CacheRecency.RecentlyUsedStays` | PFS/src/file_cache.c:18-108 | over every run a cluster used keeps its block until as many other clusters as the cache has room for have been used, or a flush |
| `CacheRecency.JustUsedIsNotReplaced` | PFS/src/file_cache.c:38-49 | with room for two blocks, what was just used is not given up for the next cluster |
| `CacheBlocks.FileCache.GetLru` | PFS/src/file_cache.c:18-35 | returns the block the specification names, null when none is older |
| `CacheBlocks.FileCache.ReadBlock` | PFS/src/file_cache.c:38-55 | returns the cluster's block with a fresh stamp, or null and no change |
| `CacheBlocks.FileCache.WriteBlock` | PFS/src/file_cache.c:57-110 | inserts a clean block, appending or replacing the oldest; returns the one put out exactly when it was modified |
| `FileBytes.CountIsLeast` | PFS/src/pfs.c:332 | the cluster count is the least number of 4096-byte clusters that hold the length |
| `FileBytes.CountInNumbers` | PFS/src/pfs.c:513 | when it is right, and how much of a write it covers otherwise, in plain arithmetic |
| `FileBytes.CountIsRightIff` | PFS/src/pfs.c:332 | the cluster count covers the range exactly when the range starts early enough in its first cluster; it is never off by more than one |
| `FileBytes.ReadIsRightIff` | PFS/src/pfs.c:332-365 | a read hands back the file's bytes, whatever lies past its buffer, exactly when the count is right |
| `FileBytes.TwoBytesAcrossABoundary` | PFS/src/pfs.c:513 | two bytes across a cluster boundary already lose the second |
| `FileBytes.PieceInFile` | PFS/src/pfs.c:525-548 | overwriting part of one cluster overwrites exactly that stretch of the file |
| `FileBytes.PieceBounds` | PFS/src/pfs.c:525-566 | each piece of a write starts where the last one ended and lies in its own cluster |
| `FileBytes.GatheredRange` | PFS/src/pfs.c:342-365 | what was gathered cluster by cluster holds the requested slice at the offset in the first cluster |
| `Piecewise.WriteStaysFit` | PFS/src/pfs.c:537-561 | one piece stored, hit or miss, leaves the file's cache well-formed and the disk outside the file unchanged |
| `Piecewise.WholeWriteIff` | PFS/src/pfs.c:523-567 | from any coherent cache, a whole write leaves it coherent and showing exactly the data written if and only if each piece met a block, no cache, or nothing to change at its turn |
| `Piecewise.UnsafePieceIsLost` | PFS/src/file_cache.c:77-108 | a piece that does not is lost whatever pieces follow |
| `Piecewise.AllHeldIsSafe` | PFS/src/pfs.c:537-543 | a write whose clusters all have blocks loses nothing |
| `Piecewise.PlainWritesBytes` | PFS/src/pfs.c:523-567 | the pieces together are the data at its offset, as much as the cluster count covers |
| `FileData.OpenFile.FetchCluster` | PFS/src/pfs.c:344-361 | returns the cluster as the view shows it, leaving the view, and the disk outside the file, unchanged, even when a modified block is written back |
| `FileData.OpenFile.GatherClusters` | PFS/src/pfs.c:337-363 | the buffer holds the chain's clusters in order from the one skipped to |
| `FileData.OpenFile.Read` | PFS/src/pfs.c:318-369 | returns as many bytes as asked for, cut at the end of the file: the file's own whenever the range fits the clusters its length needs, else those the count covers and what lies past the buffer; the file's bytes, and the disk outside it, are unchanged |
| `FileData.OpenFile.StoreThrough` | PFS/src/pfs.c:537-561 | the new state of cache and disk for hit, miss and cache off |
| `FileData.OpenFile.StorePiece` | PFS/src/pfs.c:525-561 | the state after one piece, cached or not, and the file still usable |
| `FileData.OpenFile.WriteClusters` | PFS/src/pfs.c:518-567 | stores exactly the pieces of the write, in order, whatever the cache holds |
| `FileData.OpenFile.WriteInside` | PFS/src/pfs.c:509-567 | the file's bytes become the old ones with the data over them when all pieces are safe, and the cache is right exactly then |
| `FileData.OpenFile.Extend` | PFS/src/pfs.c:506-507 | growing keeps all old bytes, shows zeros in the clusters gained, and leaves other files' entries and chains alone |
| `FileData.OpenFile.Write` | PFS/src/pfs.c:500-571 | for every state of the cache: the file is extended as needed and all pieces are stored; none is lost exactly when all were safe, and then the file is the old bytes with the data at its offset, the whole of it whenever the range fits the clusters its length needs; other files' entries, chains and clusters are unchanged |
| `FileData.OpenFile.OtherFileKept` | PFS/src/pfs.c:500-571 | another open file is as good as before and holds the bytes it held |
| `FileData.WriteBeside` | PFS/src/pfs.c:500-571 | so it is after every write |
| `FileData.OpenFile.SetSize` | PFS/src/pfs.c:493-498 | after a truncation through an open file its first cluster is up to date exactly when emptiness did not change |
| `FileData.OpenFile.Flush` | PFS/src/pfs.c:371-402 | the disk holds what readers saw, the cache is empty, the file's bytes, and the disk outside it, are unchanged |
| `Directory.CreateAppends` | PFS/src/pfs_fat32.c:261-292 | parsing after a creation, also in the last two slots, appends exactly the new record |
| `Directory.LastPairLeavesNoTerminator` | PFS/src/pfs_fat32.c:260-263 | the parse ends inside the cluster after a creation exactly when a slot is left for the terminator |
| `Directory.FirstByteDecides` | PFS/src/tad_direntry.c:57-108 | what the parse makes of a slot by its first byte, for every byte |
| `Directory.DotsFirst` | PFS/src/tad_direntry.c:38-55 | a table that begins with a dot has its two dot entries first |
| `Directory.RecordInside` | PFS/src/tad_direntry.c:57-108 | every record of a directory lies between its dot entries and its first free slot |
| `Directory.RecordsPointBack` | PFS/src/tad_direntry.c:59-108 | each parsed offset points at the slots the record was read from |
| `Directory.RemoveDrops` | PFS/src/pfs_fat32.c:426-434 | parsing after a removal drops exactly that record and frees no slot |
| `Directory.RemovalWritesMarks` | PFS/src/pfs_fat32.c:431-434 | a removal writes the first byte of the record's slots and no other |
| `Directory.RewriteUpdates` | PFS/src/pfs_fat32.c:407-417 | parsing after an entry is rewritten changes that entry and nothing else |
| `DirectoryEntries.NameSurvivesSlot` | PFS/src/tad_lfnentry.c:12-55 | an ASCII name of up to 12 characters is read back from its slot |
| `DirectoryEntries.NameSlotLayout` | PFS/src/tad_lfnentry.c:25-55 | where a long-name slot has its sequence byte, mark and characters |
| `DirectoryEntries.EntryLayout` | PFS/src/tad_direntry.c:113-136 | where a new entry has its name, attribute, stamps and zeros |
| `DirectoryEntries.ClusterNumberIs` | PFS/src/tad_direntry.c:21-29 | which bytes of an entry make its cluster number and its size |
| `DirectoryEntries.ClusterSurvivesEntry` | PFS/src/tad_direntry.c:21-136 | the first cluster and the size are read back from a new entry |
| `DirectoryEntries.ClusterSurvivesUpdate` | PFS/src/pfs_fat32.c:374-375 | the cluster is read back from an entry a truncation rewrote, which keeps its size and all other bytes |
| `DirectoryEntries.SizeSurvivesUpdate` | PFS/src/pfs_fat32.c:407 | and the size is, which keeps the cluster |
| `DirectoryEntries.StepIsListStep` | PFS/src/pfs_fat32.c:256-296 | creation, removal and update of slots are append, removal and update on the parsed list |
| `DirectoryEntries.DirectoryIsAList` | PFS/src/tad_direntry.c:31-111 | over every run the parsed directory is the fold of its operations over the first one |
| `DirectoryEntries.CreationsAreLimited` | PFS/src/pfs_fat32.c:260-293 | another creation is possible exactly while there have been fewer than the pairs of slots past the first terminator, whatever was removed; the scan keeps a terminator exactly when those pairs do not reach the last slot |
| `DirectoryEntries.BlankClusterTakes64` | PFS/src/pfs_fat32.c:260-293 | a blank cluster takes 64 creations, the last of which leaves no terminator |
| `DirectoryEntries.DirCluster.Interpret` | PFS/src/tad_direntry.c:31-111 | the walk over the buffer returns the parsed list |
| `DirectoryEntries.DirCluster.Make` | PFS/src/pfs_fat32.c:259-293 | writes the pair at the first zero slot, and fails exactly when that is the last slot or there is none |
| `DirectoryEntries.DirCluster.Delete` | PFS/src/pfs_fat32.c:431-434 | marks the record's one or two slots deleted and changes no other byte |
| `DirectoryEntries.DirCluster.Update` | PFS/src/pfs_fat32.c:410-417 | puts the entry in the record's own place and changes no other slot |

## Left out

- FileData.OpenFile.Write: excludes growth from an empty file, after which the code walks from cluster 0; what it does to the open file is `FileData.OpenFile.SetSize`.
- FileData.OpenFile.Extend: excludes growth from an empty file for the same reason.
- Directory.CreateAppends: where no terminator is left, the parse of the cluster's own slots is what the theorems speak of; the code reads on past the buffer.
- FileData.OpenFile.SetSize: a shrink is not followed by reads through a cache that still holds blocks of the clusters given back; cache runs contain no shrink.
- FileBytes.CountIsRightIff: the quotient is exact; the rounding of the code's `float` division is not modelled.
- FatTables.FatTable.Read: requires that the second entry, taken for the end mark, is one.
- Fat32.FileSystem.Truncate: requires enough free clusters, as the unbounded scan for a free entry does; the rewrite of the directory's cluster is in `Folders.Folder.Truncate`.
- Fat32.FileSystem.Remove: the marking of the record's slots is in `Folders.Folder.Remove`.
- Folders.Folder.Create: covers directories of one cluster; the code goes on in further clusters, and links one when all are full.
- MirrorProof.EveryStateOfEveryRun: counts a reply and tests the count in one step; `SplitReply` shows exactly when the code's two steps amount to that, and does not follow a second answering thread past the entry it no longer finds. The set of ready disks is fixed and request keys are unique among those in flight.
- SchedulerRuns.EveryStateOfEveryRun: the look ahead at the next request leaves the trace position out, which the next turn overwrites; of the log only who reads and writes when is modelled.
- Geometry.NumberingInvertsConversion: numbers are unbounded; 32-bit wrap-around is not modelled. All theorems that need the inverse assume one head.
- Disk disconnection and replanning of requests: the code decrements every pending write without knowing whether the lost disk had replied, so no invariant of interest holds there.
- The synchronizer of a new disk: the code marks the disk ready before it tests whether to synchronize.
- Block data, cluster buffers and sectors are sequences of bytes held in fields, so sharing of buffers between blocks and clusters is not captured; the allocation table, the gather and reassembly buffers and the directory cluster are arrays updated in place.
- The network answers outstanding requests in any order after a finite delay; lost connections end the original program.
- Time is counted in accesses to the cache, each later than the last, so a cache that is full always has a block older than now.
- The boot sector's values are the constants of its only supported layout: 512 bytes a sector, 8 sectors a cluster, the table at sector 32.
- Bytes of a name shorter than eight characters that the entry copies from past its end are a parameter; dates and times too.
- Names are ASCII, so conversion to 16-bit units is padding with a zero byte; the library that converts other names is not part of this model.
- Sockets, handshakes, select loops, the FUSE binding, mmap, configuration, consoles and log formatting: input and output only.
- Path walking, names over several slots, the cluster of a new subdirectory, further clusters of a directory, recursive removal and renaming: partial in the code, and no harder property.
- The short-name text of records without a long name: cosmetic, and read past its buffer by the code.
- Crash consistency: the order of the writes within one operation is kept, but no state between them is examined.

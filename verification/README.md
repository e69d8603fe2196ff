# A verified model of docklet's allocators, schedulers and merges

docklet gives users virtual clusters of containers and runs their batch jobs. This project models the parts of it that
keep account of something (addresses, workers, subnets, ports, memory, dependencies, charges) and proves what every
run of them keeps. Where the code changes fields step by step, a class with those fields does the same, and each
method is proved against a specification on values; the properties are proved of the specification.

| file | models |
|---|---|
| `sequences.dfy` | lists without repetitions, for the other files |
| `address.dfy` | IPv4 addresses as integers, prefix blocks, jumps from block to block |
| `free_blocks.dfy` | what the lists of a pool mean: free addresses, canonical form |
| `interval_pool.dfy` | `IntervalPool`, the buddy allocator |
| `network.dfy` | `UserPool` and `NetworkMgr` |
| `network_examples.dfy` | inputs at which `NetworkMgr` loses a block or gets an address twice |
| `quota.dfy` | from vnode quotas to prefix lengths |
| `vcluster.dfy` | clusters as users of the address pools |
| `batch_job.dfy` | `BatchJob`, the dependency graph of a job |
| `worker_load.dfy` | placing vnodes on workers, and the usage tables |
| `task_nets.dfy` | the subnets of batch tasks |
| `task_queue.dfy` | the task queue, reports and charges |
| `update_base.dfy` | merging an aufs layer into a base file system |
| `smart.dfy` | sharing out memory |
| `ports.dfy` | host ports mapped to containers |
| `port_records.dfy` | the recorded port mappings, the clusters that a restart recovers, and what it gives back |

How to read the parts together:

- A block of prefix length `c` holds `x` exactly when `Align(x, c)` is its name. Blocks, buddies, nesting and the
  pools are all stated with `Align`, and `ClearLowIsRounding` and `BlockIsInterval` say what that means in numbers.
- `FreeBlocks.Canonical` is the reason why the order of allocates and frees leaves no trace: two reachable pools with
  the same free addresses have the same lists.
- `Networks.State.Inv`, `VClusters.Recorded`, `BatchJobs.Good`, `WorkerLoads.WorkerLoad.Valid`, `TaskNets.Dealt`,
  `TaskQueues.Inv`, `Ports.Conserved` and `PortRecords.InStep` are invariants: every method of the class requires and
  ensures its one, so they hold in every run. Some methods can break theirs, and their contracts say exactly when
  (`IntervalPool.Free`, `ReleaseUserIps`, `OnTaskReport`, `PortControl.Acquire`, `PortControl.Recover`,
  `PortMappings.Restart`); the methods of `PortControl` and `PortMappings` ask only for what no call can break
  (`Sound`).
- The three parts of `TaskMgr` are modelled apart. In each, what the others do is a nondeterministic choice, and so is
  what RPCs answer. `TaskQueues.TaskQueue.AddTask` asks for a task name that was not added before, which
  `BatchJobs.HandedOncePerRun` gives: in no run do the lists of tasks that are handed over name a task twice.

What turned out not to hold, with the exact condition:

- The overlap test of the buddy allocator is exact on the blocks of a pool if and only if the pool does not end at
  255.255.255.255 (`OverlapExactIff`, `OverlapExample`). So `free` keeps the pool valid if and only if the block that
  it accepts is disjoint from the free addresses (`IntervalPool.Free`), and `del_user`, which does not look at the
  answer, loses the user's block if and only if the test finds a larger block that is not there (`Deleted`, `DelUser`;
  in a state that keeps the invariant: `DelUserLosesBlock`).
- `add_user` loses a block if and only if it is asked for a /31 or /32 and there is one (`AddUser`;
  `AddUserLosesBlock` is a run).
- `release` of a list of addresses keeps the pool sound if and only if it is refused or names no address twice
  (`ReleaseUserIps`; `ReleasedTwice` is a run).
- `create_cluster` that fails half way keeps all its addresses out of the pool, but for that of the container that
  failed (`CreateCluster`).
- A placement keeps every worker within its capacity if nothing stops while it is looked for. With stops between the
  iterations the load of each worker, running and to be started, is exactly what the vnodes other than the stopped
  ones make of it, within capacity or the load there was before (`Settle`, `NowIsBound`), and what those need that
  were passed as staying and have stopped since: they are to be started again where they were (`Schedule`,
  `OnlyByNeeds`). So the bounds are raised by their needs, and not at all if they need nothing (`RaisedByNothing`).
  Nothing less would do: after any such stop of a vnode that needs something, a vnode that needs just what seems to be
  left fits and asks too much (`StopThenTooMuch`); `PassedThenStopped` is an input of a task that `add_task` accepts
  (`TaskIsAccepted`), on two workers with one core each.
- The last vnode of a batch task gets the broadcast address of its subnet if and only if the task has as many vnodes
  as it may have (`BroadcastGivenAway`). The subnets are inside the batch network if and only if its prefix length is
  not 31 (`TaskNets.constructor`).
- Each task is charged at most once until a report about a task that was found completed makes it try again; that can
  only be a second report with one token. The invariant is lost if and only if, when the report comes, the task is to
  be taken out of the queue, its job is in the job map and the subtask has tries left (`OnTaskReport`). If the task
  had been charged for, the stop that follows charges again (`SecondCharge`, `SecondChargeExample`).
- No subtask is tried more often than its retry count and once more, and once if that is negative, in every run in
  which no subtask that has failed is started or reported again (`TaskQueue.Valid` and `again`). Trying it again stays
  within that if and only if it had not used up its tries (`RetryWithinTriesIff`).
- Merging a layer is taking the union for every listing order if and only if no name meets its own whiteout and no
  whiteout of a name that starts with `.wh` would hide a file of the base (`MergeIsUnionIff`).
- Mapping a port with a given host port keeps the ports conserved if and only if that port is in the pool and not
  mapped (`PutConserves`, `PortControl.Acquire`).
- The records of the port mappings of the clusters that a restart recovers, replayed, give the table back if and only
  if since the last restart no new mapping was answered by a failure of iptables and no record was deleted after its
  mapping could not be, and no record stayed behind its cluster (`RestartGivesAllIff`, `GivesAllIff`, `OrphanExample`,
  `StoppedExample`). A record stays behind when its cluster is stopped, if the container is not among those stopped or
  iptables does not let the mapping go (`Stop`, `StaysIs`, `NoneStaysIff`); when its cluster is deleted in status
  'error' (`DeleteCluster`); it comes back when the cluster is started again (`Start`). `delete_all_port_mapping`
  answers yes when it released all mappings of a container or none (`DeleteAll`). When one worker comes back, and not
  the master, a cluster with a recorded mapping is put in status 'error', because its mappings are there already
  (`RecoverLive`).

The comment in `allocate` that the lists between the two prefix lengths are empty, so that appending keeps them
sorted, is proved (`TakeBlock`, `SplitValid`). A job that is being stopped still hands over tasks whose dependencies
finish; the model follows the code in that.

## Model

| member | source | states |
|---|---|---|
| Address.QuadRoundTrip | src/master/network.py:20-25 | dotted quads and integers below 2^32 are the same thing; other integers lose what is above 32 bits |
| Address.ClearLowIsRounding | src/master/network.py:28-30 | masking with -1 shifted is rounding down to a multiple of the block size, for every integer |
| Address.BlockIsInterval | src/master/network.py:28-30 | the addresses that fix_ip maps to a block's name are 2^(32-c) consecutive ones |
| Address.Nested | src/master/network.py:28-30 | aligning to a small and then to a large block is aligning to the large one, so blocks are nested or disjoint |
| Address.Halves | src/master/network.py:28-36 | a block is two blocks of the next length |
| Address.BuddyIsOtherHalf | src/master/network.py:33-45 | the buddy is a block, is not the block, has the block as its buddy, and the two fill the block one level up |
| Address.NextIntervalExact | src/master/network.py:33-36 | the jump to the next block is an increment exactly when the block does not end the address space, and 0 exactly when it does |
| Address.LastAddress | src/master/network.py:28-36 | a block inside a larger one ends no later |
| FreeBlocks.FreeOnce | src/master/network.py:57-80 | a free address lies in one listed block only, whatever its length |
| FreeBlocks.FreeBlockIsInOneListedBlock | src/master/network.py:92-109 | merging is complete: an aligned block of free addresses is inside one listed block |
| FreeBlocks.FreeBlockExists | src/master/network.py:92-97 | a free block of length c exists exactly when a list of length c or shorter prefix is not empty |
| FreeBlocks.Canonical | src/master/network.py:98-172 | pools with the same free addresses have the same lists |
| FreeBlocks.FreeUndoesAllocate | src/master/network.py:92-172 | freeing what was allocated restores every list, whatever was split and merged |
| FreeBlocks.FreesCommute | src/master/network.py:138-172 | the order in which blocks are freed leaves no trace |
| IntervalPools.SplitValid | src/master/network.py:98-109 | splitting a listed block keeps alignment, order, disjointness and no two buddies |
| IntervalPools.SplitFree | src/master/network.py:98-109 | splitting takes just the addresses of the block handed out |
| IntervalPools.MergeBuddy | src/master/network.py:149-166 | one turn of the merge loop keeps the freed block disjoint from the lists and loses no address |
| IntervalPools.InsertBlock | src/master/network.py:166-172 | listing the merged block keeps the pool valid and adds just its addresses |
| IntervalPools.MergeGoesOn | src/master/network.py:149-165 | a turn of the merge loop keeps a disjoint block disjoint, and an address that was free already free |
| IntervalPools.MergeEnds | src/master/network.py:166-172 | the loop leaves a valid pool exactly when the freed block was disjoint from it |
| IntervalPools.JumpsToBuddy | src/master/network.py:149-165 | whichever way the loop of free looks, it looks at the buddy |
| IntervalPools.AppendSortSorts | src/master/network.py:166-172 | append and sort keep a list strictly sorted |
| IntervalPools.OverlapExact | src/master/network.py:113-128 | overlap answers whether the block meets the free addresses |
| IntervalPools.OverlapExactIff | src/master/network.py:33-36 | and that for every reachable pool and block exactly when the network does not end at 255.255.255.255 |
| IntervalPools.OverlapExample | src/master/network.py:113-128 | a free block, and a block disjoint from it that overlap takes for free |
| IntervalPools.NewLevelsValid | src/master/network.py:59-80 | a new pool is valid and has all addresses of its network free |
| IntervalPools.IntervalPool.constructor | src/master/network.py:59-80 | builds that pool |
| IntervalPools.IntervalPool.Copy | src/master/network.py:59-80 | a saved pool is the pool |
| IntervalPools.IntervalPool.Allocate | src/master/network.py:92-111 | fails exactly when no aligned free block of that length exists; else takes just the block's addresses, from the first of the smallest large enough |
| IntervalPools.IntervalPool.TakeBlock | src/master/network.py:98-109 | the second halves of the split block are listed, one at each level |
| IntervalPools.IntervalPool.Overlap | src/master/network.py:113-128 | ends for every pool and gives the exact answer, also where the jump wraps |
| IntervalPools.IntervalPool.OverlapLevel | src/master/network.py:116-127 | the enumeration at one level, towards that answer |
| IntervalPools.IntervalPool.InRange | src/master/network.py:130-136 | whether every address of the block is in the network |
| IntervalPools.IntervalPool.Free | src/master/network.py:138-173 | succeeds exactly for blocks of the network that overlap finds disjoint, adds just their addresses, and spoils the pool exactly when one was free |
| IntervalPools.IntervalPool.MergeUp | src/master/network.py:149-172 | climbing the levels adds just the freed addresses and keeps the pool valid, exactly for a disjoint block |
| Networks.UserPool.constructor | src/master/network.py:178-194 | a user has every address of the block but network, gateway and broadcast address |
| Networks.UserPool.Acquire | src/master/network.py:202-208 | hands out as many as asked, last first, or none |
| Networks.UserPool.InRange | src/master/network.py:262-268 | whether the address is in the block and none of the three special ones |
| Networks.UserPool.Release | src/master/network.py:224-238 | all are taken back exactly when each is missing from the pool and may be in it; else nothing changes |
| Networks.Take | src/master/network.py:480-507 | handing a free block to a holder keeps the partition of the network |
| Networks.GiveBack | src/master/network.py:526-545 | a held block never meets free addresses, and taking it back keeps the partition |
| Networks.AssignableIsInside | src/master/network.py:262-268 | assignable addresses are exactly those of the user's block but the three special ones |
| Networks.AcquiredSplits | src/master/network.py:202-208 | what is handed out and what stays are the pool, each address once |
| Networks.UsersNeverMeet | src/master/network.py:480-545 | in every reachable state no address is in two users' blocks, and none of them is free or the system's |
| Networks.TakeForUser | src/master/network.py:480-507 | adding a user keeps free blocks, system /27, users' blocks and lost blocks a partition |
| Networks.TakeAndLose | src/master/network.py:480-507 | so does losing a /31 or /32 |
| Networks.TakeBack | src/master/network.py:526-545 | so does deleting a user, whose block is disjoint from the free addresses |
| Networks.LoseBlock | src/master/network.py:526-545 | a block that is not taken back stays held by nobody, and the partition stays |
| Networks.DeletedKeeps | src/master/network.py:526-545 | deleting a user keeps the partition, whether or not the block comes back, and it does in a network that does not end at 255.255.255.255 |
| Networks.ChangePool | src/master/network.py:590-620 | changing a user's list keeps the invariant exactly when the list stays sound |
| Networks.InitialState | src/master/network.py:279-302 | the new manager starts with that partition |
| Networks.NetworkMgr.constructor | src/master/network.py:283-301 | the centre without the system's /27 |
| Networks.NetworkMgr.Recover | src/master/network.py:302-311 | reading back what was saved gives the manager as it was |
| Networks.NetworkMgr.AddUser | src/master/network.py:480-507 | when it succeeds, what it takes, and exactly when a block is lost |
| Networks.NetworkMgr.DelUser | src/master/network.py:526-545 | gives back just the user's block, or loses it exactly when the unchecked free is refused |
| Networks.NetworkMgr.AcquireUserIps | src/master/network.py:590-610 | all or nothing; distinct assignable addresses that are in the pool no more |
| Networks.NetworkMgr.ReleaseUserIps | src/master/network.py:612-620 | when it succeeds, and that only a list with a repeated address spoils the pool |
| NetworkExamples.RoomInNewNetwork | src/master/network.py:283-301 | a new network has room for a block of every length from the system's on |
| NetworkExamples.AddUserLosesBlock | src/master/network.py:480-507 | the first user of a network asks for a /31: refused, and a block is held by nobody |
| NetworkExamples.ReleasedTwice | src/master/network.py:612-620 | an address given back twice in one call is accepted and in the pool twice |
| NetworkExamples.DelUserLosesBlock | src/master/network.py:526-545 | a state that keeps the invariant, with a user whose block is not taken back and then held by nobody |
| Quota.PoolMeetsQuota | src/master/vclustermgr.py:137-139 | the pool has room for the quota, without an address to spare exactly for 2^k - 3, and no smaller block would do |
| Quota.OnlyPrefix | src/master/vclustermgr.py:137-138 | no other prefix length has room for the quota in its block and not in half of it |
| Quota.NoTie | src/master/userManager.py:801-804 | no integer has a logarithm half way between two integers, so ties are never rounded |
| Quota.RoundLog2Correct | src/master/userManager.py:801-804 | the integer computation is the rounded logarithm |
| Quota.RoundLog2Unique | src/master/userManager.py:801-804 | which is one number |
| Quota.RoundQuotaStable | src/master/userManager.py:966-969 | the rounded quota is 2^k - 3 exactly for the rounded logarithm k; rounding is idempotent and gives a quota that its pool meets exactly |
| VClusters.AddressesAreUnique | src/master/vclustermgr.py:147-206 | no two recorded containers of any users share an address; each is in its owner's block and not special |
| VClusters.ClusterReleasable | src/master/vclustermgr.py:452-484 | the addresses of a cluster are distinct and all in use |
| VClusters.AfterAcquire | src/master/vclustermgr.py:147-158 | acquired addresses are in use and in no record |
| VClusters.AfterRecord | src/master/vclustermgr.py:193-197 | recording them keeps every record's address its own |
| VClusters.AfterDelete | src/master/vclustermgr.py:452-484 | the addresses of a deleted cluster are in no other record |
| VClusters.AfterRelease | src/master/vclustermgr.py:452-484 | releasing addresses without a record keeps all records in use |
| VClusters.SelectOne | src/master/vclustermgr.py:490-499 | the loop over the containers finds the one with the number |
| VClusters.VClusterMgr.EnsureUser | src/master/vclustermgr.py:136-146 | a new user gets a block exactly when one is free whose pool has room for the quota and whose half has not; the pool then has no address to spare exactly for quotas 2^k - 3; none is lost |
| VClusters.VClusterMgr.CreateCluster | src/master/vclustermgr.py:120-206 | the answer, from what is there and what the others do; for want of addresses exactly when the pool is too small, never for a new user within the quota; then a new record, numbered, whose addresses have left the pool, or no change of the records and the addresses that stay out: none, all, or all but one; other users are untouched |
| VClusters.VClusterMgr.MakeCluster | src/master/vclustermgr.py:158-206 | with the addresses there, a cluster is recorded exactly when every container is made |
| VClusters.VClusterMgr.CreateContainers | src/master/vclustermgr.py:162-187 | the loop makes every container or ends at the first that is not made; all addresses stay out of the pool then, or all but that container's |
| VClusters.StrandedAreOut | src/master/vclustermgr.py:163-187 | the addresses that stay out are distinct and just those that the pool lacks |
| VClusters.VClusterMgr.TakeIps | src/master/vclustermgr.py:147-157 | the pool is split in what is left and the addresses, which are in use and in no record |
| VClusters.VClusterMgr.ReleaseOne | src/master/vclustermgr.py:181-184 | the release after a failed container succeeds |
| VClusters.VClusterMgr.ScaleOut | src/master/vclustermgr.py:208-262 | exactly when it succeeds; one container more, under the next number, with the one address that left the pool, or neither records nor addresses change |
| VClusters.VClusterMgr.ScaleIn | src/master/vclustermgr.py:486-523 | exactly when it succeeds; just the named container goes and its address is accepted back, also when the answer is no because a port mapping stays |
| VClusters.VClusterMgr.DeleteCluster | src/master/vclustermgr.py:452-484 | exactly when it succeeds; the cluster goes, its addresses are accepted back in one call, the user's block goes with the last cluster |
| BatchJobs.RemainingMembers | src/master/jobmgr.py:184-190 | the remaining dependencies are the declared ones that have not finished |
| BatchJobs.StepKeeps | src/master/jobmgr.py:93-261 | every report keeps the job well formed and leaves no ready task pending |
| BatchJobs.RunKeeps | src/master/jobmgr.py:93-261 | so does every run |
| BatchJobs.HandedOnceWhenReady | src/master/jobmgr.py:98-107 | no event makes a task pending again, and a task that is handed over waits for nothing |
| BatchJobs.HandedOncePerRun | src/master/jobmgr.py:94-201 | in every run the lists of tasks that are handed over name no task twice |
| BatchJobs.FailedIsFailed | src/master/jobmgr.py:224-241 | a failed report leaves the job failed |
| BatchJobs.OpenUnlessFailed | src/master/jobmgr.py:119-153 | after a running or retrying report the job is failed exactly when a task has failed, and otherwise neither done nor stopped |
| BatchJobs.StopEndsStopped | src/master/jobmgr.py:112-135 | in every run after a stop in which nothing fails, the job is stopping while a task is in hand, and then stopped, or done if all have finished |
| BatchJobs.StuckNeverHanded | src/master/jobmgr.py:157-201 | in no run is a task on or behind a cycle handed over |
| BatchJobs.QuietMeansStuck | src/master/jobmgr.py:157-201 | when all handed-over tasks finished, the others are on or behind cycles |
| BatchJobs.AcyclicIsNotStuck | src/master/jobmgr.py:47-70 | an acyclic graph has no such tasks |
| BatchJobs.Progress | src/master/jobmgr.py:157-201 | in an acyclic job, while a task is unfinished one is handed over and unfinished |
| BatchJobs.FinishDecreases | src/master/jobmgr.py:157-201 | a finish report leaves one unfinished task fewer, no report leaves more |
| BatchJobs.AcyclicEndsDone | src/master/jobmgr.py:119-136 | an acyclic job with nothing more to finish is done |
| BatchJobs.RunCounts | src/master/jobmgr.py:157-201 | in every run the unfinished tasks are all tasks but those with a first finished report |
| BatchJobs.EveryRunEndsDone | src/master/jobmgr.py:447-500 | in every run, whatever is reported in whatever order: when in an acyclic job nothing handed over is left to finish, every task has finished, and after the last accepted report the job is done |
| BatchJobs.FinishingRunEndsDone | src/master/jobmgr.py:447-449 | runs of running, retrying and finished reports have at most one finished report for each task, and in an acyclic job they only stop with every task finished and the job done |
| BatchJobs.CountsAgreeWithScan | src/master/jobmgr.py:119-136 | the status chosen from the counters is that of a scan of the tasks |
| BatchJobs.CountsSumToTasks | src/master/jobmgr.py:119-136 | the counters sum to the number of tasks |
| BatchJobs.MoveCounts | src/master/jobmgr.py:138-261 | moving one count along with a status keeps the counters right |
| BatchJobs.ReversedAppend | src/master/jobmgr.py:61-70 | appending to the reverse edges keeps them the reverse of the declared dependencies |
| BatchJobs.StruckEnd | src/master/jobmgr.py:184-190 | striking a finished task off the lists, once for each reverse edge, leaves what remains |
| BatchJobs.MarkedIsFinish | src/master/jobmgr.py:191-198 | the tasks whose list became empty are just those that the report frees |
| BatchJobs.CollectReady | src/master/jobmgr.py:94-110 | the loop hands over exactly the tasks that wait for nothing, each once |
| BatchJobs.StrikeOut | src/master/jobmgr.py:184-198 | the loop over the reverse edges does what the report means |
| BatchJobs.ReadTask | src/master/jobmgr.py:61-70 | refuses exactly the dependencies that are not tasks of the job |
| BatchJobs.ReadTasks | src/master/jobmgr.py:47-70 | reads the declared dependencies and their reverse |
| BatchJobs.BatchJob.constructor | src/master/jobmgr.py:47-70 | a new job with every task pending |
| BatchJobs.BatchJob.Create | src/master/jobmgr.py:43-80 | refused exactly when a task, whose list is not the one empty name, names one that is no task; else the job of that description |
| BatchJobs.HandedWhenReported | src/master/jobmgr.py:61-107 | in no run of a created job is a task handed over before each task that it names in the description has been reported finished |
| BatchJobs.HandedAtOnce | src/master/jobmgr.py:61-107 | handed over at once are exactly the tasks that name no other |
| BatchJobs.HandedIffReported | src/master/jobmgr.py:98-203 | in every run that was handed out, a task has been handed over exactly when each task that it names has been reported finished |
| BatchJobs.BatchJob.UpdateJobStatus | src/master/jobmgr.py:119-136 | the job gets the status of a scan |
| BatchJobs.BatchJob.UpdateTaskRunning | src/master/jobmgr.py:138-154 | a running report |
| BatchJobs.BatchJob.UpdateTaskRetrying | src/master/jobmgr.py:204-222 | a retrying report |
| BatchJobs.BatchJob.UpdateTaskFailed | src/master/jobmgr.py:223-241 | a failed report |
| BatchJobs.BatchJob.UpdateTaskStopped | src/master/jobmgr.py:242-261 | a stopped report, refused exactly for tasks that are over |
| BatchJobs.BatchJob.StopJob | src/master/jobmgr.py:112-116 | the job is marked stopping |
| BatchJobs.BatchJob.GetTasksNoDependency | src/master/jobmgr.py:93-110 | hands over exactly the ready tasks |
| BatchJobs.BatchJob.FinishTask | src/master/jobmgr.py:156-201 | hands over exactly the tasks that the report frees; a repeated report frees none |
| WorkerLoads.LoadChange | src/master/taskmgr.py:295-333 | changing one vnode changes its worker's load by the vnode's needs |
| WorkerLoads.FirstFitFits | src/master/taskmgr.py:628-656 | the worker found has room, and none has when none is found |
| WorkerLoads.BudgetStep | src/master/taskmgr.py:650-655 | placing a vnode where it fits leaves what the worker still has |
| WorkerLoads.BudgetStop | src/master/taskmgr.py:314-333 | a stop takes a vnode's share with it and leaves the bookkeeping right for the vnodes that are still counted |
| WorkerLoads.LoadSplit | src/master/taskmgr.py:610-663 | stopped vnodes that are to be started again add just their needs to a load |
| WorkerLoads.RaisedIsBound | src/master/taskmgr.py:610-663 | within bounds without the stopped vnodes, a placement is within the bounds raised by their needs, with the exact load |
| WorkerLoads.NowIsBound | src/master/taskmgr.py:610-663 | before a placement the bound is the capacity, or the running load where that is more |
| WorkerLoads.RaisedByNothing | src/master/taskmgr.py:610-663 | stopped vnodes that need nothing raise no bound |
| WorkerLoads.StopThenTooMuch | src/master/taskmgr.py:620-655 | after any stop of a passed vnode that needs something, a vnode that needs what seems to be left oversubscribes its worker by just those needs |
| WorkerLoads.TaskIsAccepted | src/master/taskmgr.py:773-779 | the task of the example is accepted: on idle workers its vnodes have room |
| WorkerLoads.PassedThenStopped | src/master/taskmgr.py:620-655 | an input where a stop between two iterations gives one core to two vnodes, and none would be given without the stop |
| WorkerLoads.PlaceUndisturbed | src/master/taskmgr.py:610-663 | if nothing changes between the iterations, they give the placement on one reading |
| WorkerLoads.PlaceOneMore | src/master/taskmgr.py:620-659 | one iteration more: the next vnode's worker is added, or there is no placement |
| WorkerLoads.PlaceWithinCapacity | src/master/taskmgr.py:610-663 | a placement never asks more of a worker than it has, running and new vnodes together |
| WorkerLoads.PlacingStop | src/master/taskmgr.py:314-333 | a stop reported while workers are looked for keeps what the iterations so far have found |
| WorkerLoads.PlacingMore | src/master/taskmgr.py:708-790 | so does a new task |
| WorkerLoads.PlacingNext | src/master/taskmgr.py:620-659 | an iteration keeps the loads within bounds, whatever has stopped before it |
| WorkerLoads.PlacingEnds | src/master/taskmgr.py:571-594 | writing the workers into the subtasks keeps the accounts; the starts to come are within the raised bounds, and their loads exact |
| WorkerLoads.AssignIs | src/master/taskmgr.py:578-580 | writing the workers one by one gives the vnodes the workers that were found |
| WorkerLoads.StartAccounted | src/master/taskmgr.py:295-312 | booking a start keeps the tables sums over the running vnodes |
| WorkerLoads.StopAccounted | src/master/taskmgr.py:314-333 | so does booking a stop |
| WorkerLoads.NoMoreLoad | src/master/taskmgr.py:314-333 | stops, failed starts and decided starts never raise a load |
| WorkerLoads.FindProperWorkers | src/master/taskmgr.py:610-663 | the loops, undisturbed, send every vnode that does not run to the first worker with enough left of CPU, memory, disk and GPU and the right kind of GPU; nothing exactly when no vnode waits or some vnode finds no such worker |
| WorkerLoads.PlacementFits | src/master/taskmgr.py:636-656 | of memory and disk, the vnodes that a placement puts on a worker need no more in all than it reported; a vnode that prefers a kind of GPU and needs one gets it |
| WorkerLoads.PlaceMeans | src/master/taskmgr.py:620-659 | what the loops compute, with the others at work before every iteration, is such a placement, and what is left of the workers is what the placed vnodes do not need |
| WorkerLoads.PlaceEnds | src/master/taskmgr.py:620-659 | the loops end with a placement of all, or at the first vnode that no worker has room for |
| WorkerLoads.FitsIsRoom | src/master/taskmgr.py:636-647 | the tests on one worker say that it has enough left of everything after the vnodes before |
| WorkerLoads.WorkerLoad.UsageWithinCapacity | src/master/taskmgr.py:295-333 | cpu_usage and gpu_usage are the sums over the running vnodes and never exceed the worker, but by the needs of vnodes that stopped after they were passed |
| WorkerLoads.WorkerLoad.StartVnode | src/master/taskmgr.py:295-312 | books exactly the accepted starts |
| WorkerLoads.WorkerLoad.StopVnode | src/master/taskmgr.py:314-333 | books exactly the accepted stops of running vnodes |
| WorkerLoads.WorkerLoad.InterfereAmid | src/master/taskmgr.py:510-545 | whatever stops and comes in between two iterations, what was found so far stays right |
| WorkerLoads.WorkerLoad.LookAtNext | src/master/taskmgr.py:620-659 | an iteration after others have been at work: a worker for the next vnode, or the end |
| WorkerLoads.WorkerLoad.FindWorkers | src/master/taskmgr.py:610-663 | with other threads at work before every iteration: the placement on what the iterations read, or why there is none |
| WorkerLoads.WorkerLoad.LookAtAll | src/master/taskmgr.py:620-659 | the loop keeps what was found right, and ends at the first vnode that no worker has room for |
| WorkerLoads.WorkerLoad.Schedule | src/master/taskmgr.py:571-594 | all vnodes of the list get a worker, each the first with room for it when it was looked at, or none does and why; the loads with and without the vnodes that were passed and have stopped, and which these are |
| WorkerLoads.WorkerLoad.Touch | src/master/taskmgr.py:690-703 | booking 0 for a new worker changes no usage |
| WorkerLoads.WorkerLoad.Process | src/master/taskmgr.py:405-447 | the start loop keeps the accounts, whatever reports stop and tasks come in meanwhile, and says whether a vnode lost its worker |
| WorkerLoads.WorkerLoad.ProcessOne | src/master/taskmgr.py:424-447 | a vnode keeps its worker or, if it could not be started, loses it; no other vnode moves |
| TaskNets.Deal | src/master/taskmgr.py:366-371 | giving a subnet away keeps free and held subnets the initial ones, each once |
| TaskNets.TakeBack | src/master/taskmgr.py:373-379 | so does taking it back |
| TaskNets.TaskNets.constructor | src/master/taskmgr.py:182-192 | the subnets are the multiples of the subnet size in the batch network, of the wanted size as far as that is possible; they lie inside it exactly when its prefix length is not 31 |
| TaskNets.TaskNets.AllNets | src/master/taskmgr.py:190-192 | they do not overlap and none is left out |
| TaskNets.TaskNets.Acquire | src/master/taskmgr.py:366-371 | the first free subnet, or the one the task has |
| TaskNets.TaskNets.Release | src/master/taskmgr.py:373-379 | the subnet goes to the end of the list |
| TaskNets.TaskNets.AddressesDistinct | src/master/taskmgr.py:81-86 | vnode and gateway addresses of all tasks are distinct, in their own subnet and in the batch network |
| TaskNets.TaskNets.AddressesInOrder | src/master/taskmgr.py:81-86 | the gateway has the address after that of the subnet, and the vnodes the others, in order and without gaps |
| TaskNets.TaskNets.GenIps | src/master/taskmgr.py:81-86 | the loop gives these addresses |
| TaskNets.TaskNets.BroadcastGivenAway | src/master/taskmgr.py:717-718 | a vnode gets the broadcast address exactly when the task has as many vnodes as allowed |
| TaskQueues.ChargedAtMostOnce | src/master/jobmgr.py:456-499 | each task is charged at most once |
| TaskQueues.OthersKeep | src/master/taskmgr.py:250-608 | a turn about one task keeps the invariant for all the others |
| TaskQueues.FinishedHasNoLiveToken | src/master/taskmgr.py:492-507 | a task is found finished only after every command was reported completed |
| TaskQueues.TurnOfCompletedTask | src/master/taskmgr.py:492-507 | reporting a completed task charges it once, and nothing after can charge it again |
| TaskQueues.TurnOfStoppedTask | src/master/taskmgr.py:254-262 | a stop charges no task a second time, also after completion or without its job |
| TaskQueues.TurnOfStoppedNewTask | src/master/taskmgr.py:272-276 | nor does a stop before the task was queued |
| TaskQueues.TurnOfSettledTask | src/master/taskmgr.py:510-545 | a report about a task that was found completed changes nothing that is charged for; with a live token its job has left the job map |
| TaskQueues.TurnOfReopenedTask | src/master/taskmgr.py:527-533 | a retry of such a task spoils the invariant exactly when its job is in the job map |
| TaskQueues.StaysInJobMap | src/master/jobmgr.py:481-499 | a running or retrying report takes no job out of the job map |
| TaskQueues.SecondCharge | src/master/taskmgr.py:254-262 | a completed task that tries again while its job is in the job map is charged once more by the stop that follows |
| TaskQueues.SecondChargeExample | src/master/taskmgr.py:510-533 | a state that keeps the invariant where a second report and a stop do that |
| TaskQueues.TurnOfWorkerReport | src/master/taskmgr.py:510-545 | what a worker's report changes in a queued task keeps the invariant |
| TaskQueues.RetryMeans | src/master/taskmgr.py:127-132 | one try more; the subtask waits again, with its task as it was, exactly when it had tries left, and otherwise both have failed |
| TaskQueues.ReportMeans | src/master/taskmgr.py:527-545 | completed and output error set the status, and only the latter fails the task; failed and timeout use a try; the token is used up in any case |
| TaskQueues.StartMeans | src/master/taskmgr.py:449-466 | a command that does not run is sent with a new token, or a try is used up |
| TaskQueues.FoundCompletedIff | src/master/taskmgr.py:492-545 | in every run without failures a task is found completed exactly when each of its commands was reported completed after its last start, and is then reported finished |
| TaskQueues.ReportIsStep | src/master/jobmgr.py:481-497 | in the job map a report sets the status of its task as it does in the job |
| TaskQueues.RetryWithinTriesIff | src/master/taskmgr.py:127-132 | trying again stays within retry count and one tries exactly when they were not used up |
| TaskQueues.RetryKeepsTries | src/master/taskmgr.py:127-132 | so it does for a subtask that has not failed, and the last try fails it |
| TaskQueues.ReportKeepsTries | src/master/taskmgr.py:527-545 | no report about such a subtask uses more tries |
| TaskQueues.StartKeeps | src/master/taskmgr.py:449-466 | nor does a start, and it keeps subtasks and task in agreement |
| TaskQueues.TurnOfNewTask | src/master/taskmgr.py:708-718 | adding a new task keeps the invariant |
| TaskQueues.SortFacts | src/master/taskmgr.py:278-283 | sorting keeps the tasks, orders them by priority and keeps the order within a priority |
| TaskQueues.SortedIs | src/master/taskmgr.py:278-283 | in a sorted queue a task with a smaller number comes first |
| TaskQueues.SortedOutIsFair | src/master/taskmgr.py:253-283 | the queue that is left: without stopped and finished tasks, by priority, first come first served within a priority |
| TaskQueues.RemoveAll | src/master/taskmgr.py:264-269 | the while loop takes out just the marked tasks, also those marked twice |
| TaskQueues.ClearSubs | src/master/taskmgr.py:468-478 | clearing changes at most the status of subtasks whose stop failed |
| TaskQueues.JobMgr.Report | src/master/jobmgr.py:456-499 | what a report charges and changes, in the job map or in the database alone; stopped reports are refused for tasks that are over, and running and retrying ones drop no job without a failed task |
| TaskQueues.TaskQueue.AddJob | src/master/jobmgr.py:335-349 | a new job keeps the invariant |
| TaskQueues.TaskQueue.AddTask | src/master/taskmgr.py:708-718 | the task is appended, with its priority, or reported failed |
| TaskQueues.TaskQueue.LazyStop | src/master/taskmgr.py:480-482 | the stop is noted |
| TaskQueues.TaskQueue.SortOut | src/master/taskmgr.py:250-283 | the queue becomes the sorted-out one, in the order of the priorities, and every stop has reached its job |
| TaskQueues.TaskQueue.CheckTaskCompleted | src/master/taskmgr.py:492-507 | answers whether no command runs or waits; a completed task is then reported failed exactly when it has failed, else finished, and charged exactly once, if anything |
| TaskQueues.FindOpen | src/master/taskmgr.py:492-497 | the loop answers whether the task has not failed and a command runs or waits |
| TaskQueues.FindWaiting | src/master/taskmgr.py:604-608 | the loop answers whether a subtask waits |
| TaskQueues.TaskQueue.PickTask | src/master/taskmgr.py:548-602 | the picked task overtakes no live waiting task, except those that prefer a GPU that it does not prefer; every finished task before it is found; without a pick, the scan ended at a waiting task without a preference or at the end |
| TaskQueues.TaskQueue.LookAtTask | src/master/taskmgr.py:553-600 | a task of the queue is passed only if it may be, taken only if it overtakes nothing, and stops the scan only if it waits without a preference |
| TaskQueues.TaskQueue.Schedule | src/master/taskmgr.py:225-233 | and still does when it is marked and reported running |
| TaskQueues.TaskQueue.StartVnodeFailed | src/master/taskmgr.py:441-446 | a failed start uses up one try: waiting again if tries are left, else failed; and whether the subtask had failed before |
| TaskQueues.TaskQueue.StartTask | src/master/taskmgr.py:449-466 | a command is sent with a new token, or a try is used up, and whether the subtask had failed before |
| TaskQueues.TaskQueue.OnTaskReport | src/master/taskmgr.py:510-545 | what each kind of report, with the right token, makes of subtask and task, and nothing else changes; the invariant is lost exactly when the task was to be taken out, its job is in the job map and a try is left, all before the report |
| UpdateBase.WhiteoutFacts | src/utils/updatebase.py:15-35 | a name is the target of its whiteout, which is taken for a mark of aufs exactly when the name starts with .wh |
| UpdateBase.OneEntry | src/utils/updatebase.py:29-66 | an entry of the image changes only the entry of its name or of its target, to what |
| UpdateBase.SomeEntries | src/utils/updatebase.py:29-66 | what is at a name after any part of the listing |
| UpdateBase.MergeIsUnion | src/utils/updatebase.py:22-68 | every ordinary path reads in the merged tree as through the union, for any listing order |
| UpdateBase.MergeIsNotUnion | src/utils/updatebase.py:22-68 | otherwise some listing order and path read differently |
| UpdateBase.MergeIsUnionIff | src/utils/updatebase.py:22-68 | exactly when merging is taking the union |
| UpdateBase.MarksStay | src/utils/updatebase.py:15-35 | no mark of the image comes into the merged directory, and those of the base stay, unless the directory is opaque |
| UpdateBase.MergeWithMarks | src/utils/updatebase.py:22-68 | every path, with marks or not, reads in the merged tree as ReadWithMarks says |
| UpdateBase.AufsMerge | src/utils/updatebase.py:22-68 | the loop over the listing, with merges of subdirectories, gives the merged tree |
| Smart.PassShrinks | meter/intra/smart.py:68-79 | each pass drops a container or leaves no excess |
| Smart.SharesFit | meter/intra/smart.py:68-72 | the shares of the containers still served are at most the memory left |
| Smart.PassKeeps | meter/intra/smart.py:71-79 | a pass keeps shares fair: within usage, at least the first share, ordered by score |
| Smart.Pass | meter/intra/smart.py:68-79 | the inner loop serves each container once, conserves memory and collects the excess |
| Smart.PassAdds | meter/intra/smart.py:68-79 | what a pass adds to a container that it serves is its part of the memory for that pass, but for rounding, or reaches its usage |
| Smart.SharesAreRounded | meter/intra/smart.py:72 | a share is the part by score, rounded down |
| Smart.EachGetsPart | meter/intra/smart.py:61-83 | a limit is at least the usage, or more than the part of the memory by score less one |
| Smart.PlentyIsHandedOut | meter/intra/smart.py:61-83 | when every part reaches the usage, all memory is handed out but for less than one for each container, twice |
| Smart.LittleIsLost | meter/intra/smart.py:72 | rounding loses less than one for each container |
| Smart.ServeAll | meter/intra/smart.py:66-79 | an iteration of the while loop is a pass, which conserves memory and keeps shares fair |
| Smart.Distribute | meter/intra/smart.py:61-79 | the while loop is a run of passes to the end, and gives with what is left at most the memory |
| Smart.ShareOut | meter/intra/smart.py:61-83 | limits sum to at most the memory, and nearly to all of it if there is plenty; none is above usage unless all reach it; each gets its part or its usage; a higher score gets no less; the passes, and what the last one leaves shared by score |
| Ports.PutConserves | src/utils/nettools.py:411-425 | a new mapping keeps the ports conserved exactly when its host port is in the pool and not mapped |
| Ports.DropConserves | src/utils/nettools.py:458-461 | a mapped port was not free; dropping its mapping keeps the ports conserved |
| Ports.ReplayGivesBack | src/master/vclustermgr.py:323-333 | records of mappings that were there are accepted by a table with others of them, and give just these back; what is mapped when iptables fails |
| Ports.ReplayRebuildsIff | src/master/vclustermgr.py:323-333 | replaying the records rebuilds the table exactly when every mapping had a record |
| Ports.ReplayableIsSafe | src/master/vclustermgr.py:323-333 | records of free ports without repetitions leave the ports conserved, whatever iptables answers |
| Ports.RecoveredConserved | src/utils/nettools.py:411-440 | a table with a port twice, or a port outside the pool, stays such whatever is replayed into it |
| Ports.OrphanIsLost | src/master/vclustermgr.py:313-320 | a mapping for which no record is written is not given back by any records |
| Ports.OrphanExample | src/master/vclustermgr.py:313-320 | the only port of the pool, mapped and not recorded |
| Ports.LegalPrefixIs | src/utils/nettools.py:379-386 | the ranges before the first illegal one |
| Ports.PortControl.InitNew | src/utils/nettools.py:372-390 | refuses exactly lists with an illegal range, and frees the ports of the ranges before it |
| Ports.PortControl.LowestFree | src/utils/nettools.py:414-424 | the scan finds the lowest free port |
| Ports.PortControl.Acquire | src/utils/nettools.py:398-440 | the lowest port that is in the pool and not mapped, or the given one; when it is refused; and exactly when ports stay conserved |
| Ports.PortControl.Release | src/utils/nettools.py:442-462 | unmaps exactly when the mapping exists and iptables succeeds; the port can be mapped again |
| Ports.PortControl.Recover | src/master/vclustermgr.py:323-333 | for any records: what is mapped in the end, stopping at the first record that is not mapped, and exactly when ports stay conserved |
| PortRecords.MappedAndRecorded | src/master/vclustermgr.py:298-321 | a mapping with its record keeps records and table in step |
| PortRecords.MappedOnly | src/master/vclustermgr.py:313-316 | one without a record is one mapping more that a restart does not give back |
| PortRecords.RecordDropped | src/master/vclustermgr.py:373-384 | so is one whose record is deleted |
| PortRecords.BothDropped | src/master/vclustermgr.py:335-363 | mappings that go with their records leave the others in step |
| PortRecords.RestoredMore | src/master/vclustermgr.py:323-333 | recovering one cluster more gives back just its recorded mappings |
| PortRecords.AfterRestart | src/master/vclustermgr.py:323-333 | what is back after a restart is what was recorded, and all that was mapped exactly when no call had failed |
| PortRecords.LetGoMore | src/master/vclustermgr.py:335-363 | deleting the mappings of one container after another lets go what deleting those of all would |
| PortRecords.StaysIs | src/master/vclustermgr.py:760-783 | the records that a stopped cluster is left with are those of other containers and those that iptables does not let go |
| PortRecords.NoneStaysIff | src/master/vclustermgr.py:760-783 | there are none exactly when each recorded mapping of the cluster is of a stopped container and is let go |
| PortRecords.OutsideLeaves | src/master/vclustermgr.py:85-91 | a cluster that a restart does not come to any more leaves its records behind |
| PortRecords.OutsideReturns | src/master/vclustermgr.py:85-91 | a cluster that it comes to again takes them back |
| PortRecords.RestartGivesAllIff | src/master/vclustermgr.py:85-91 | a restart gives back just the mappings recorded for running clusters, and all mappings exactly when no call failed and no record stayed behind |
| PortRecords.StoppedExample | src/master/vclustermgr.py:760-783 | the only mapping, of a cluster that is stopped while iptables fails: no failure is counted, and a restart does not give it back |
| PortRecords.AlreadyThere | src/master/vclustermgr.py:323-333 | replaying records of mappings that are there stops at the first and changes nothing |
| PortRecords.PortMappings.GivesAllIff | src/master/vclustermgr.py:298-384 | in every reachable state the records of running clusters are of mappings, and of all mappings exactly when no iptables call failed that made or kept one without a record and no record stayed behind |
| PortRecords.PortMappings.constructor | src/utils/nettools.py:372-390 | no clusters, nothing mapped, nothing recorded |
| PortRecords.PortMappings.Create | src/master/vclustermgr.py:120-206 | a new cluster does not run |
| PortRecords.PortMappings.Start | src/master/vclustermgr.py:570-624 | a cluster that is started takes its records back among those that a restart comes to |
| PortRecords.PortMappings.Add | src/master/vclustermgr.py:298-321 | a new mapping is recorded, unless iptables fails, when it stays without a record |
| PortRecords.PortMappings.Delete | src/master/vclustermgr.py:365-384 | the record goes, the mapping only if iptables lets it |
| PortRecords.PortMappings.ReleaseEach | src/master/vclustermgr.py:342-356 | the loop releases the mappings of the container that iptables lets go |
| PortRecords.PortMappings.DeleteAll | src/master/vclustermgr.py:335-363 | these go with their records; when the answer is yes |
| PortRecords.PortMappings.StopContainers | src/master/vclustermgr.py:771-776 | the loop deletes the mappings of the containers one by one, and ignores what is answered |
| PortRecords.PortMappings.Stop | src/master/vclustermgr.py:760-783 | which mappings and records go when a cluster is stopped, and which records stay behind |
| PortRecords.PortMappings.DeleteCluster | src/master/vclustermgr.py:452-484 | a cluster that does not run goes and leaves its records behind |
| PortRecords.PortMappings.Restart | src/master/vclustermgr.py:85-91 | what is mapped after a restart, for any clusters that are reached and any answers; whether all recorded mappings are back, and whether they are all there were |
| PortRecords.PortMappings.RecoverAll | src/master/vclustermgr.py:646-702 | recovering the running clusters one by one gives back their recorded mappings exactly when each is reached and iptables never fails |
| PortRecords.PortMappings.RecoverLive | src/master/vclustermgr.py:637-644 | when a worker comes back, a cluster is put in status 'error' exactly when it has recorded mappings, and nothing is mapped |

## Left out

- IntervalPools.IntervalPool.Free: a length above 32 raises for some inputs in the source and is refused here; the two are not told apart.
- Networks.NetworkMgr.DelUser: one step; a crash between saving the centre and deleting the user's record is not modelled.
- Networks.NetworkMgr.ReleaseUserIps: the pool of a user who is given a repeated address is out of the model from then on.
- Networks.UserPool.constructor: EnumPool's own addresses, used for the system pool, are not modelled; only its block is.
- VClusters.VClusterMgr.CreateCluster: the addresses that stay out of the pool return with the user's block, as in the source; no claim is made that they return earlier.
- VClusters.VClusterMgr.DeleteCluster: database commits succeed; when a worker is missing, the queued deletes may or may not be written.
- BatchJobs.BatchJob.Create: the dependency string is already split at its commas; the empty string stands for no dependency as in the source.
- BatchJobs.BatchJob.UpdateTaskRunning: the branch for a task in status 'stopping' is not modelled, because no task gets that status.
- WorkerLoads.WorkerLoad.Schedule: an iteration reads the tables once, before it tests the workers; the source reads them worker by worker, so a stop during an iteration may show in the later tests only. Memory and disk of running vnodes are not booked by the source either, so only CPU and GPU are claimed; node lists that repeat an address or are empty are excluded, and a worker's capacity does not change.
- WorkerLoads.WorkerLoad.Process: the workers of a list are known; a worker that disappears between placement and start only makes the start fail.
- TaskNets.TaskNets.Acquire: with no subnet left the source raises; that is an answer here.
- TaskQueues.JobMgr.Report: a finished report whose next task is refused reports that failure inside the report; the exception that the source then raises for a job dropped twice is not modelled.
- TaskQueues.TaskQueue.PickTask: whether workers are found is left open here (worker_load.dfy says when), and so is what a task costs.
- TaskQueues.TaskQueue.OnTaskReport: runs go on only while no second report with one token has lost the invariant, as its contract says.
- TaskQueues.TaskQueue.Schedule: the check for completion up to marking the task running is one step, so that a report in between cannot be overwritten.
- TaskQueues.TaskQueue.AddTask: whether the task fits on idle workers is left open; recovery of jobs after a restart and the display order of tasks are not modelled.
- UpdateBase.AufsMerge: whiteouts of "", "." and ".." are excluded, as are symbolic links and special files; the base is a value that the loop rewrites, so failing file operations are not modelled.
- Smart.ShareOut: scores, shares and memory are exact numbers, not floating point; a container without a usage sample ends the round before any limit is set and is excluded.
- Ports.PortControl.Acquire: for a host port that is not there the source raises with the lock held; that later calls then wait forever is not modelled.
- PortRecords.PortMappings.Add: each gateway has its own table; there is one here. Container ports are given as the numbers that they are recorded as, without leading zeros.
- PortRecords.PortMappings.Restart: after a restart that did not bring all recorded mappings back the runs go on, but only `Sound` is promised of them: a port that is recorded and not mapped is free, and may be given to another container. The port ranges do not change.
- PortRecords.PortMappings.RecoverLive: one cluster at a time, with its worker reached.
- PortRecords.PortMappings.Start: what else starting and recovering a cluster does (routes, containers, users' networks) is one choice, whether it gets that far.
- Quota.RoundQuotaStable: the logarithm is exact; the floating-point logarithm of the source differs from it for some large powers of two.
- Addresses are integers, not strings, and each request is handled alone: locks, threads inside a request, JSON and etcd transactions are not modelled; etcd and the database are maps.
- Objects held in several places (a task in the queue and in the lazy lists) are names into one map, so aliasing is not modelled.
- Billing formulas, wall-clock times, gateways, bridges, containers, image handling, migration, authentication and web views are not part of this model.

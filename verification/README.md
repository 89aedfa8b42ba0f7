# Verified models of the repository's algorithms and protocols

This project models, in Dafny, the parts of the repository that hold a real algorithm or protocol, and
proves what they are for. Each method changes its state in place where the source does, and is proved
against a specification that has theorems of its own. `dafny verify dfyconfig.toml` checks everything.

| files | source | what is modelled |
|---|---|---|
| `Common` | | notions that several models share |
| `PoolModel`, `PoolInvariant`, `PoolSafety`, `PoolProgress`, `PoolFree`, `PoolWorker`, `PoolLinger`, `PoolCode` | `ThreadPoolOracle/thr_pool.c` | a thread pool: FIFO job queue, active list, idle and thread counts, linger time-out, wait and destroy |
| `SharedQueueModel`, `SharedQueueCode` | `shared_queue_condvar.cpp` | a bounded blocking queue for many producers and consumers, timed and not |
| `SharedBuffer` | `inter_process_sync/shared_buffer.h` | a byte buffer between processes |
| `Walks`, `TopoSort`, `GraphCode`, `GraphFloyd` | `graph.cpp` | adjacency lists and matrix, topological sorting, Floyd's distances |
| `Dijkstra`, `DijkstraPaths` | `单源点最短路径.cpp` | shortest paths from one node, with the paths |
| `Dijkstra`, `DijkstraLex` | `test1.cpp` | least distance, then least cost |
| `WordSearch` | `回朔法_demo1.cpp` | word search by backtracking |
| `TreeParser`, `TreeText` | `广义表建普通树.cpp` | a stack parser for trees, and the levels of a name |
| `Spiral` | `spiral_matrix_螺旋矩阵.cpp` | the spiral matrix |
| `Knapsack` | `HDU/2602.cpp` | the 0/1 knapsack in one row |
| `Checksum` | `crc_checksum.cpp` | the Internet checksum |
| `UrlStream` | `curl/fopen.c` | the stream buffer of a reader of URLs |

## How the concurrent code is modelled

An event of a state machine is one critical section: what a thread does from getting the mutex to giving it
up, by unlocking or by sleeping on a condition variable. A notification that the source sends after the
unlock is an event of its own. Which sleeper a signal wakes, whether a thread can be created, whether a
timed wait expires and whether a wait returns for no reason are part of the event, so that every theorem
about runs holds for every scheduling. The classes then do the same with real fields and lists; the contract
of each of their methods is that it makes exactly one step of the machine.

## What the proofs found

- `thr_pool_destroy` returns if and only if its call finds nothing active or nothing queued. With a running
  and a queued job it sleeps for ever on `pool_waitcv`: no job starts any more, and `notify_waiters` wants an
  empty queue. The header promises that queued jobs are cancelled (`ThreadPoolOracle/thr_pool.h:51-54`).
- The pool may be freed under callers of `thr_pool_wait`. If nothing is queued after the call of
  `thr_pool_destroy`, a caller sleeps un-notified in the freed pool if and only if that call found a queue, and
  the caller slept un-notified then or tested the queue later. With a queue everybody is inside still who was
  inside or came later. Without one nobody sleeps un-notified, but a notified caller may not have come back
  from its sleep when the pool is freed. Nobody is inside if nobody was when destroy was called and nobody
  calls `thr_pool_wait` later.
- The header says that `min_threads` threads are always available (`ThreadPoolOracle/thr_pool.h:16-17`).
  Workers are only created with jobs, so the minimum is at first not reached. A pool that has reached it falls
  below it exactly when, at the minimum, a job calls `pthread_exit` and its worker is not replaced, because
  nothing is queued or the replacement cannot be created.
- A `thr_pool_queue` call whose `create_worker` fails still reports success; in a pool without workers its job
  then waits for another call. A `max_threads` of 2^31 or more is stored as a negative number, and then there
  is never a worker.
- `clear()` of the shared queue wakes no producer. Producers are covered over a whole run if and only if every
  clear finds no producer asleep, or enough of them awake or about to be notified for the whole capacity.
- A shared buffer loses no wakeup if and only if at most two threads use it, or nobody reads, or nobody writes,
  or each call asks for the whole capacity or more. One reader and one writer are safe; a third thread is safe
  only if every call empties or fills the buffer: with calls for at least one byte, at a capacity of 1.
- `topoSort` is a `const` method but counts the in-degrees down, and the next call starts from what is left.
  After a success a second call says yes with the nodes in the order of their numbers, which is right if and
  only if every edge goes upwards. After a failure a second yes is wrong, as the graph has a cycle; it is said
  if and only if the first call took some node off, and each non-empty set of the nodes that it left has one
  with no more edges from the set than from the nodes that were taken off.
- A loop replaces the 0 on the diagonal of the graph's matrix: Floyd gives a node with a loop the weight of its
  lightest cycle as the distance to itself, and 0 only to a node without one.
- The parser makes no node from a text without an operator, so a tree of one node is lost.
- The checksum adds the left-over byte at the low end of the word: that equals padding with a zero byte on
  a little-endian machine, and on a big-endian one only if the byte is zero. The bound of 131074 bytes is sharp.
- `url_fread` with an item size of 0 divides by zero if and only if there is data.

## Model

| member | source | states |
|---|---|---|
| PoolInvariant.StepKeeps | ThreadPoolOracle/thr_pool.c:91-222 | every critical section of workers and clients keeps the invariant: counters agree with threads, active list is the running workers, jobs are accounted for, sleepers are covered |
| PoolInvariant.RunKeeps | ThreadPoolOracle/thr_pool.c:138-413 | every state of every run satisfies that invariant |
| PoolSafety.NoStuckWork | ThreadPoolOracle/thr_pool.c:91-104 | while the pool is not being destroyed, a non-empty queue has an awake worker if and only if there is a worker, and there is one unless a create_worker failed |
| PoolSafety.EveryQueuedJobHasAWorker | ThreadPoolOracle/thr_pool.c:165-218 | while some worker sleeps there are at least as many woken workers as queued jobs, whatever time-outs race with signals |
| PoolSafety.FailedCreateLeavesWork | ThreadPoolOracle/thr_pool.c:339-344 | a run in which a failed create_worker leaves a queued job without any worker |
| PoolSafety.ArgumentsStored | ThreadPoolOracle/thr_pool.c:267-286 | which arguments are accepted; that minimum, maximum and linger are stored as they are up to 2^31, and a larger maximum as a negative number; and that a new pool has no workers and no jobs |
| PoolSafety.QueueAwakens | ThreadPoolOracle/thr_pool.c:329-343 | one call of thr_pool_queue makes exactly one more worker awake if some worker sleeps, or if nobody is idle and a thread can be created; otherwise none |
| PoolSafety.QueueAppends | ThreadPoolOracle/thr_pool.c:329-336 | one call of thr_pool_queue puts its job at the end of the queue |
| PoolSafety.JobsAccounted | ThreadPoolOracle/thr_pool.c:188-210 | every job ever queued is at its place in the queue, or running on exactly one worker, or finished, and only one of these |
| PoolSafety.ThreadsAccounted | ThreadPoolOracle/thr_pool.c:94-102 | active plus idle is at most nthreads, which is at most the maximum and counts the live workers; the active list holds each running worker once; with a maximum below 1 there is never a worker |
| PoolSafety.RunLater | ThreadPoolOracle/thr_pool.c:138-413 | over any run, what was queued, started and finished only grows, POOL_DESTROY stays set, and no job starts after it |
| PoolSafety.JobsStartInOrder | ThreadPoolOracle/thr_pool.c:188-196 | the job that a worker starts is the oldest one that was not started, and the pool is not being destroyed |
| PoolSafety.WaiterIsCovered | ThreadPoolOracle/thr_pool.c:106-136 | a caller asleep in thr_pool_wait and not notified implies POOL_WAIT set and work left |
| PoolSafety.WaitReturnsAfterAllJobs | ThreadPoolOracle/thr_pool.c:350-356 | when thr_pool_wait returns, every job queued before has finished |
| PoolSafety.NoJobStartsAfterDestroy | ThreadPoolOracle/thr_pool.c:186-187 | once POOL_DESTROY is set no job starts and nobody sleeps on pool_workcv |
| PoolSafety.FreeFindsNoWorker | ThreadPoolOracle/thr_pool.c:378-412 | free(pool) is reached only without workers and without active jobs; then each job has finished or is discarded with the queue |
| PoolSafety.DestroyerIsCovered | ThreadPoolOracle/thr_pool.c:379-386 | the destroyer never sleeps un-notified on busycv without threads, nor on waitcv with nothing active and an empty queue |
| PoolSafety.DestroyerNotStranded | ThreadPoolOracle/thr_pool.c:365-386 | if the queue is empty when destroy is called and nothing is queued later, the destroyer is never asleep un-notified on waitcv with nothing active |
| PoolSafety.StepKeepsMinimum | ThreadPoolOracle/thr_pool.c:94-102 | a step keeps a live pool that has its minimum at or above it if and only if it is not a pthread_exit at the minimum whose worker is not replaced |
| PoolSafety.MinimumKept | ThreadPoolOracle/thr_pool.c:94-102 | over whole runs: a pool that has reached its minimum stays there if and only if no such step is taken |
| PoolSafety.ExitGoesBelowMinimum | ThreadPoolOracle/thr_pool.c:204-220 | a run in which a pool reaches its minimum and a job's pthread_exit takes it below |
| PoolSafety.MinimumNotReachedAtFirst | ThreadPoolOracle/thr_pool.h:16-17 | a run without failures in which the pool has fewer threads than its minimum |
| PoolProgress.InternalStepWeighs | ThreadPoolOracle/thr_pool.c:138-222 | every step that the pool makes by itself lowers a measure |
| PoolProgress.LeftAloneIsFinite | ThreadPoolOracle/thr_pool.c:138-222 | a pool left alone comes to rest within as many steps as its measure |
| PoolProgress.RestMeansDone | ThreadPoolOracle/thr_pool.c:106-136 | where a pool that is not being destroyed comes to rest, nothing is active, and if it has a worker or no create_worker failed all jobs have finished and all waiters have returned |
| PoolProgress.WorkDrains | ThreadPoolOracle/thr_pool.c:316-357 | over whole runs: every job gets finished and every thr_pool_wait returns |
| PoolProgress.DestroyReturnsIff | ThreadPoolOracle/thr_pool.c:359-413 | thr_pool_destroy on a pool that is then left alone gets to free(pool) if and only if its call finds nothing active or nothing queued; otherwise it sleeps on waitcv and all workers have gone |
| PoolProgress.DestroyStranded | ThreadPoolOracle/thr_pool.c:378-382 | a run in which destroy finds one job running and one queued, and sleeps for ever |
| PoolFree.WaitersAtFree | ThreadPoolOracle/thr_pool.c:346-412 | who sleeps un-notified in thr_pool_wait at free, for any calls: exactly who did when destroy found a queue, or when a job was queued after it, or who tested a queue after it; without later queueing, if and only if destroy found a queue and the client slept un-notified then or tested it later; and with a queue, exactly those are inside who were or came later |
| PoolFree.NobodyInside | ThreadPoolOracle/thr_pool.c:346-357 | if nobody is inside thr_pool_wait at some moment and no later call of it finds work, nobody is inside afterwards |
| PoolFree.FreedUnderAWaiter | ThreadPoolOracle/thr_pool.c:346-412 | a run that frees the pool while a caller sleeps in thr_pool_wait un-notified, destroy having found a queue |
| PoolFree.FreedUnderAWokenWaiter | ThreadPoolOracle/thr_pool.c:346-412 | a run that frees the pool while a notified caller is inside thr_pool_wait, destroy having found no queue |
| PoolWorker.WorkerDecides | ThreadPoolOracle/thr_pool.c:165-220 | each critical section of a worker comes down to one table: under destruction it leaves, with a queue it takes the oldest job, up to the minimum it sleeps without a time-out, above it leaves if its time is up or linger is 0, and otherwise sleeps with a time-out; all other workers stay as they were |
| PoolWorker.ExitDecides | ThreadPoolOracle/thr_pool.c:88-104 | after pthread_exit in a job the worker is gone, and replaced if and only if the pool lives, jobs are queued and a thread can be created |
| PoolWorker.FlagMeansWork | ThreadPoolOracle/thr_pool.c:106-136 | in every run POOL_WAIT is set only while there is work |
| PoolWorker.HistoryIs | ThreadPoolOracle/thr_pool.c:88-104 | the jobs of a run are those of its thr_pool_queue calls, in order, and create_worker has failed if and only if the system refused a thread at one of its two calls |
| PoolLinger.FewSleepUntimed | ThreadPoolOracle/thr_pool.c:171-183 | in every run at most as many workers as the minimum sleep without a time-out |
| PoolLinger.ExcessLingers | ThreadPoolOracle/thr_pool.c:174-218 | in a pool with a linger time a worker leaves, while the pool lives, only by pthread_exit or after that time; and without pthread_exit only with an empty queue and above the minimum |
| PoolLinger.NoLingerNoTimedSleep | ThreadPoolOracle/thr_pool.c:174-182 | in a pool without a linger time no worker ever sleeps with a time-out |
| PoolLinger.ExcessWorkersLeave | ThreadPoolOracle/thr_pool.h:20-21 | excess idle workers leave: a live pool that has come to rest is not above its minimum |
| PoolLists.JobList.Append | ThreadPoolOracle/thr_pool.c:331-335 | a job is linked in behind the tail |
| PoolLists.JobList.TakeHead | ThreadPoolOracle/thr_pool.c:188-194 | the job at the head is unlinked |
| PoolLists.ActiveList.Push | ThreadPoolOracle/thr_pool.c:195-196 | a worker is linked in at the front of the active list |
| PoolLists.WithoutAt | ThreadPoolOracle/thr_pool.c:126-133 | removing the first entry of a thread, wherever it is |
| PoolLists.ActiveList.Unlink | ThreadPoolOracle/thr_pool.c:126-133 | the search through the active list takes out the first entry of the thread and nothing else |
| PoolCode.CreatePool | ThreadPoolOracle/thr_pool.c:259-314 | refuses exactly the bad arguments; otherwise an initial state of the machine that has the minimum, the maximum and the linger time of the arguments |
| PoolCode.ThrPool.NotifyWaitersCall | ThreadPoolOracle/thr_pool.c:106-113 | does what the machine's notify_waiters does |
| PoolCode.ThrPool.WorkerCleanupCall | ThreadPoolOracle/thr_pool.c:91-104 | does what the machine's worker_cleanup does |
| PoolCode.ThrPool.JobCleanupCall | ThreadPoolOracle/thr_pool.c:118-136 | does what the machine's job_cleanup does, on the linked list |
| PoolCode.ThrPool.TakeJobCall | ThreadPoolOracle/thr_pool.c:185-196 | the oldest job moves from the queue to the active list |
| PoolCode.ThrPool.WorkerTurn | ThreadPoolOracle/thr_pool.c:165-218 | one turn of the worker's loops; the outer loop goes round only after an expired wait |
| PoolCode.ThrPool.WorkerLoop | ThreadPoolOracle/thr_pool.c:155-219 | the worker's two nested loops, from their top or from a return of the wait, end in the state that the machine prescribes, and terminate |
| PoolCode.ThrPool.StartWorker | ThreadPoolOracle/thr_pool.c:152-184 | a new worker's first critical section is one step of the machine |
| PoolCode.ThrPool.ResumeWorker | ThreadPoolOracle/thr_pool.c:169-197 | a return of the wait, signalled, expired or spurious, is one step of the machine |
| PoolCode.ThrPool.JobReturned | ThreadPoolOracle/thr_pool.c:203-219 | the return of a job function is one step of the machine |
| PoolCode.ThrPool.JobExited | ThreadPoolOracle/thr_pool.c:204-220 | pthread_exit in a job, or its cancellation, is one step of the machine |
| PoolCode.ThrPool.QueueCall | ThreadPoolOracle/thr_pool.c:316-345 | thr_pool_queue is one step of the machine |
| PoolCode.ThrPool.WaitTurn | ThreadPoolOracle/thr_pool.c:347-357 | each turn of thr_pool_wait is one step of the machine, and says whether it returns |
| PoolCode.ThrPool.DestroyCall | ThreadPoolOracle/thr_pool.c:365-388 | thr_pool_destroy up to its first sleep is one step of the machine, and cancels exactly the active workers |
| PoolCode.ThrPool.DestroyWaitResumed | ThreadPoolOracle/thr_pool.c:379-386 | a return of the destroyer's wait on waitcv is one step of the machine |
| PoolCode.ThrPool.DestroyBusyResumed | ThreadPoolOracle/thr_pool.c:385-388 | a return of the destroyer's wait on busycv is one step of the machine |
| PoolCode.ThrPool.FreePool | ThreadPoolOracle/thr_pool.c:404-412 | pending jobs are discarded, all of them, in order |
| SharedQueueModel.StepKeeps | shared_queue_condvar.cpp:16-117 | every critical section and every notification keeps order, bound and coverage of consumers; all but clear keep coverage of producers, and clear leaves them covered if and only if it is harmless |
| SharedQueueModel.NoLostWakeup | shared_queue_condvar.cpp:42-111 | in every run, with or without clear, a sleeping consumer implies no more elements than awake consumers plus coming notifications |
| SharedQueueModel.NoLostWakeupForProducers | shared_queue_condvar.cpp:16-117 | over a whole run, producers are covered in the same way if and only if every clear was harmless; so in every run without clear |
| SharedQueueModel.ClearStrandsAWriter | shared_queue_condvar.cpp:113-117 | a run in which clear leaves a producer asleep in front of an empty queue |
| SharedQueueModel.LeavesHow | shared_queue_condvar.cpp:42-110 | pop takes the oldest element if there is one, clear takes all, and nothing else takes any |
| SharedQueueModel.FirstInFirstOut | shared_queue_condvar.cpp:16-61 | the n-th element to leave is the n-th that was pushed, nothing is lost, and the bound is kept |
| SharedQueueModel.SleepersRemember | shared_queue_condvar.cpp:16-100 | a waiting thread still has the element, and the choice of a time-out, of its last call |
| SharedQueueModel.PushesItsElement | shared_queue_condvar.cpp:16-76 | a turn of push adds nothing to a full queue, and otherwise the element of the thread's last call |
| SharedQueueModel.InternalStepWeighs | shared_queue_condvar.cpp:16-111 | every step without a new call or a spurious wakeup lowers a measure |
| SharedQueueModel.LeftAloneIsFinite | shared_queue_condvar.cpp:16-111 | a queue without new calls comes to rest within as many steps as its measure |
| SharedQueueModel.RestMeansNothingToDo | shared_queue_condvar.cpp:16-117 | at rest, waiting consumers imply an empty queue; if every clear was harmless, waiting producers imply a full one, and not both wait |
| SharedQueueModel.TimedCallsReturn | shared_queue_condvar.cpp:61-100 | where nothing moves, no thread is left in timed_push or timed_pop |
| SharedQueueCode.SharedQueue.PushStep | shared_queue_condvar.cpp:16-40 | push and timed_push, in place, are the machine's steps: append if there is room, else sleep or give up |
| SharedQueueCode.SharedQueue.PopStep | shared_queue_condvar.cpp:42-111 | pop and timed_pop, in place, are the machine's steps, and return the oldest element |
| SharedQueueCode.SharedQueue.ClearAll | shared_queue_condvar.cpp:113-117 | clear empties the deque and wakes nobody |
| SharedBufferModel.BytesConserved | inter_process_sync/shared_buffer.h:147-186 | in every interleaving, bytes read followed by the buffered bytes are the bytes written, within the capacity |
| SharedBufferModel.SleepersRemember | inter_process_sync/shared_buffer.h:147-186 | a waiting thread still has the number of bytes, or the bytes, of its last call |
| SharedBufferModel.ReadsItsBytes | inter_process_sync/shared_buffer.h:147-166 | a turn of Read waits exactly on an empty buffer; otherwise it takes the oldest bytes, as many as its call asks for and there are, and has a signal to send |
| SharedBufferModel.WritesItsBytes | inter_process_sync/shared_buffer.h:168-186 | a turn of Write waits exactly on a full buffer; otherwise it stores the first bytes of its call, as many as there is room for, and has a signal to send |
| SharedBufferModel.NeverBothAsleep | inter_process_sync/shared_buffer.h:151-183 | with one reader and one writer a sleeper whose condition holds has a signal coming, and both sleep only if the capacity is 0 |
| SharedBufferModel.CoveredIff | inter_process_sync/shared_buffer.h:147-186 | no run by given readers and writers, whose calls ask for a given number of bytes or more, loses a wakeup if and only if that number is at least the capacity, one side is absent, or there are at most two threads |
| SharedBufferModel.SafeSharing | inter_process_sync/shared_buffer.h:147-186 | in those cases every state of every run has a signal coming, or a woken thread, for each side that sleeps and could go on |
| SharedBufferModel.ReaderStranded | inter_process_sync/shared_buffer.h:156-183 | for any two readers, any third thread that writes and any least request below the capacity, a run with one write and one signal that strands a reader |
| SharedBufferModel.WriterStranded | inter_process_sync/shared_buffer.h:162-183 | for any two writers, any third thread that reads and any least request below the capacity, a run that strands a writer |
| SharedBufferCode.MoveDown | inter_process_sync/shared_buffer.h:159 | the overlapping move puts the remaining bytes to the front unchanged |
| SharedBufferCode.CopyIn | inter_process_sync/shared_buffer.h:179 | the bytes are appended behind those that are there |
| SharedBufferCode.SharedBuffer.ReadStep | inter_process_sync/shared_buffer.h:147-166 | Read, on the array, is the machine's step: it takes the first min(n, curPos) bytes and will signal, or sleeps on an empty buffer |
| SharedBufferCode.SharedBuffer.WriteStep | inter_process_sync/shared_buffer.h:168-186 | Write, on the array, is the machine's step: it stores exactly min(n, capacity - curPos) bytes and will signal, or sleeps on a full buffer |
| Digraph.TopoOrderAcyclic | graph.cpp:94-130 | an order of all nodes in which every edge points forward excludes every cycle |
| Digraph.PredecessorsMakeCycle | graph.cpp:94-130 | a set of nodes each of which has a predecessor in the set contains a cycle |
| Digraph.ExhaustedIsAll | graph.cpp:94-130 | where the algorithm stops, its result has all nodes exactly if there is no cycle, and exactly if it is a topological order |
| Digraph.FreshSort | graph.cpp:94-130 | counting down from the true in-degrees says yes if and only if there is a node and no cycle, and then the result is a topological order |
| Digraph.TakenOffIff | graph.cpp:94-130 | from any counts, a node is in the result if and only if it is in no blocked set, a set of nodes none of which can be the first of them to be taken off |
| Digraph.FreshTakesOff | graph.cpp:94-130 | with the true in-degrees, a node is in the result if and only if it is in no set each of whose nodes has a predecessor in the set |
| Digraph.SucceedsIff | graph.cpp:94-130 | from any counts, the answer is yes if and only if some node has count zero and only the empty set is blocked |
| Digraph.NothingIsLeft | graph.cpp:118-122 | after a success all in-degrees are zero |
| Digraph.EarlierIsZero | graph.cpp:94-130 | at every moment of the sorting, with a node that has been counted down to zero so have all before it in the result |
| Digraph.SortIsUnique | graph.cpp:94-130 | from the same counts there is only one list with the nodes and the order that topoSort's contract states |
| Digraph.SortsNextIff | graph.cpp:94-130 | from what a first call left of the true in-degrees, the answer is yes if and only if that call took some node off, and in each non-empty set of the others some node has no more edges from the set than from the nodes taken off |
| Digraph.SortAgain | graph.cpp:94-130 | counting down from zeros says yes and gives the nodes in ascending order, which is a topological order if and only if every edge goes upwards |
| Digraph.LoopGraphSorts | graph.cpp:94-130 | on the edges 0 to 1 and 1 to 1 the first call says no, and the in-degrees it leaves make the next one say yes |
| GraphCode.Graph.constructor | graph.cpp:52-60 | the empty graph: no nodes, and a matrix with 0 on the diagonal and INFINITY everywhere else |
| GraphCode.Graph.AddEdge | graph.cpp:66-77 | from any state of the counts: an edge is added to the lists and counted at its end, nodes appear when first named, the matrix keeps the last weight |
| GraphCode.Graph.CollectSources | graph.cpp:101-107 | counts the present nodes and lists exactly those without incoming edges |
| GraphCode.Graph.VisitEdge | graph.cpp:118-122 | one edge is counted down unless its end was visited; its end is queued exactly when its count gets to zero |
| GraphCode.Graph.SomeExcess | graph.cpp:32-34 | whatever the counts of the nodes are, they have an excess over the edges, so that TopoSort and AddEdge apply |
| GraphCode.Graph.TopoSort | graph.cpp:94-130 | from any counts: the sources first and exactly the nodes counted down to zero, true if and only if that is all of them and there was a source, which is if and only if there is a source and no blocked set, and what counts are left; with the true in-degrees, true if and only if the graph has a node and no cycle, and then every present node once with every edge forward; the nodes stand in the order in which they are counted down to zero |
| GraphCode.SortTwice | graph.cpp:94-130 | two calls in a row: exactly when the second one says yes, that after a failure this is wrong, and what it lists after a success |
| GraphCode.SortLoopTwice | graph.cpp:66-130 | two calls on a graph with a cycle: no, then yes |
| Walks.WeightSplits | graph.cpp:176-180 | the weight of a walk is the sum of the weights of its parts |
| Walks.WalksJoin | graph.cpp:176-180 | walks that meet join to a walk with the sum of the weights |
| FloydMatrix.PhaseBelow | graph.cpp:174-186 | a phase for node k extends the lower bound from walks through nodes below k to those through nodes up to k |
| FloydMatrix.PhaseRealized | graph.cpp:174-186 | after a phase every entry below INFINITY is still the weight of a walk |
| FloydMatrix.PhaseInPlace | graph.cpp:174-186 | a phase in place equals a phase on a copy, although row k and column k are read while written, and no sum exceeds INT_MAX |
| FloydMatrix.Floyd | graph.cpp:157-186 | for weights in 0..INFINITY the final weight is the minimum of INFINITY and the weight of the lightest walk |
| GraphFloyd.EntryIs | graph.cpp:52-77 | a matrix entry is the weight of the last edge added between its nodes, or 0 or INFINITY as in the empty graph |
| GraphFloyd.DistancesOfGraph | graph.cpp:157-186 | shortest distances in the matrix are those over the paths of the graph's edges, with 0 from a node without a loop to itself |
| GraphFloyd.FloydOf | graph.cpp:157-186 | Floyd on a graph built by addEdge: for every two nodes the minimum of INFINITY and the least total weight of a path of edges |
| DijkstraCore.LeavingCosts | test1.cpp:70-91 | a walk that leaves the finished nodes costs at least as much as some unfinished node |
| DijkstraCore.LeastIsOptimal | test1.cpp:71-83 | the least tentative cost is final |
| DijkstraCore.RelaxKeeps | test1.cpp:85-90 | finishing the least node and improving the others keeps the invariant of the algorithm |
| DijkstraCore.AllOptimal | test1.cpp:82-93 | when no unfinished node is below the top every cost is optimal, cut off at the top |
| DijkstraPaths.PathThrough | 单源点最短路径.cpp:65-67 | the path by way of k, and then k, is a walk of the new distance |
| DijkstraPaths.ChooseNearest | 单源点最短路径.cpp:51-57 | finds the unfinished node of least distance below MAX, or that there is none |
| DijkstraPaths.RelaxFrom | 单源点最短路径.cpp:60-69 | improves exactly the unfinished nodes that get nearer, in place; no sum exceeds INT_MAX |
| DijkstraPaths.RelaxKeepsGood | 单源点最短路径.cpp:50-70 | each round keeps the invariant and finishes a node |
| DijkstraPaths.DijShortest | 单源点最短路径.cpp:39-70 | for weights in 0..MAX every distance is the minimum of MAX and the lightest walk, a distance below MAX comes with the nodes of such a walk, and the loop ends |
| DijkstraLex.WeightIsTotals | test1.cpp:20-21 | adding up the pairs along a walk gives the sum of its distances and the sum of its costs |
| DijkstraLex.TotalsFitIf | test1.cpp:9-20 | a bound on single edges, and on the number of nodes, that keeps all totals below MAX |
| DijkstraLex.ReachedIsFinished | test1.cpp:70-91 | where the rounds end, every node that can be reached is finished |
| DijkstraLex.RelaxKeepsGood | test1.cpp:83-90 | each round keeps, besides the bounds, a simple walk for every cost that is not (MAX, MAX) |
| DijkstraLex.SumsFit | test1.cpp:20-21 | the sums of a round stay within int |
| DijkstraLex.ShortestPath | test1.cpp:61-94 | (0, 0) for s = t; otherwise the least sum of distances over all walks, and the least sum of costs among the walks of that distance, or (MAX, MAX) exactly if there is no walk |
| WordSearch.FourNeighbours | 回朔法_demo1.cpp:46-57 | a trail for the rest of the word exists exactly if one goes on from one of the four neighbours with the cell marked |
| WordSearch.Solution.Search | 回朔法_demo1.cpp:30-60 | found is set exactly if it was, or some trail spells the rest from here; the marks come back as they were |
| WordSearch.Solution.Exist | 回朔法_demo1.cpp:63-81 | true if and only if some path of distinct side-adjacent cells spells the word |
| TreeFormat.ParseTree | 广义表建普通树.cpp:63-114 | parsing a printed tree and the operator behind it makes it a child of the node on the stack |
| TreeFormat.ParseList | 广义表建普通树.cpp:63-114 | parsing printed siblings makes them children, in order |
| TreeFormat.LayoutIsTree | 广义表建普通树.cpp:21-28 | nodes in the order of their creation, read from the root, are the tree |
| TreeFormat.RoundTrip | 广义表建普通树.cpp:63-114 | a printed tree whose root has a child, with good names, is read back as it was |
| TreeFormat.SingleNodeIsLost | 广义表建普通树.cpp:75-81 | a printed tree of one node gives no node |
| TreeFormat.LevelsAreDepths | 广义表建普通树.cpp:32-47 | the collected levels are exactly the depths, from 1, at which the name occurs |
| TreeText.TokensSpell | 广义表建普通树.cpp:73-111 | the turns of the parser spell the text up to its last operator, and no operator is in the rest |
| TreeText.TokensClean | 广义表建普通树.cpp:73-111 | each turn has a name without an operator, and one operator |
| TreeText.TextIsNodes | 广义表建普通树.cpp:63-114 | for any text in which a name comes before each opening brace, printed from a tree or not: the nodes are the names in front of operators, in order, and each is a child of exactly the name before the innermost brace that is open there |
| TreeProgram.MakeNode | 广义表建普通树.cpp:77-85 | a new object becomes the last child of the one on top of the stack |
| TreeProgram.Advance | 广义表建普通树.cpp:75-111 | one turn of the loop on real objects is one turn of the parser's specification |
| TreeProgram.CreateTree | 广义表建普通树.cpp:63-114 | the objects linked by the parser are the nodes of its specification, and the root is returned |
| TreeProgram.Query.Traverse | 广义表建普通树.cpp:32-47 | adds exactly the levels of the name below a node to the result |
| TreeProgram.Query.Answer | 广义表建普通树.cpp:123-130 | one record and one name: the result is the set of levels in the tree that the record describes |
| TreeProgram.AnswerIsDepths | 广义表建普通树.cpp:32-114 | for a printed tree the answer is exactly the depths of the name if the root has a child, and empty otherwise |
| SpiralOrder.AreaIsSquare | spiral_matrix_螺旋矩阵.cpp:27-47 | the rings have n*n cells together |
| SpiralOrder.VisitInverse | spiral_matrix_螺旋矩阵.cpp:27-47 | the cell visited after p others is inside and is preceded by p cells |
| SpiralOrder.BeforeInverse | spiral_matrix_螺旋矩阵.cpp:27-47 | every cell is visited, at its turn |
| SpiralOrder.StepsToNeighbour | spiral_matrix_螺旋矩阵.cpp:27-47 | cells visited in succession lie side by side, across ring boundaries too |
| SpiralOrder.VisitsSpiral | spiral_matrix_螺旋矩阵.cpp:27-47 | every step goes straight ahead if that cell is inside and free, and otherwise turns right |
| SpiralOrder.SpiralStarts | spiral_matrix_螺旋矩阵.cpp:33-34 | the spiral starts in the top left corner to the right |
| SpiralProgram.Spiral.FillRing | spiral_matrix_螺旋矩阵.cpp:32-44 | the four loops number exactly the border cells, in order, from the counter on |
| SpiralProgram.Spiral.FillRoundMatrix | spiral_matrix_螺旋矩阵.cpp:27-47 | fills ring k and all within it, changes nothing else, and the recursion ends for odd and even n |
| SpiralProgram.EachOnce | spiral_matrix_螺旋矩阵.cpp:50-57 | each of 1..n*n is in exactly one cell |
| SpiralProgram.NumbersSideBySide | spiral_matrix_螺旋矩阵.cpp:50-57 | every cell holds one of 1..n*n, and consecutive numbers are side by side |
| SpiralProgram.NumbersSpiral | spiral_matrix_螺旋矩阵.cpp:50-57 | three consecutive numbers take a step of the clockwise spiral |
| SpiralProgram.NumbersFitIff | spiral_matrix_螺旋矩阵.cpp:26-57 | counting from 0, all numbers fit `int` if and only if n is at most 46340 |
| SpiralProgram.FilledMatrix | spiral_matrix_螺旋矩阵.cpp:50-57 | the program's matrix holds the numbers of the visits |
| KnapsackModel.BestIsGreatest | HDU/2602.cpp:21-33 | the recurrence is the greatest total value over all choices of items that fit |
| KnapsackModel.SumsFitIff | HDU/2602.cpp:25-28 | no sum that the loop forms exceeds INT_MAX if and only if the greatest value does not, and none is below its item's value |
| KnapsackModel.Knapsack | HDU/2602.cpp:21-33 | the row, overwritten from right to left, follows the two-row recurrence at every step; the result is the greatest value over all choices of weight at most c |
| ChecksumModel.OnesSumIsFolded | crc_checksum.cpp:3-26 | the one's complement sum with end-around carry is the plain sum, folded |
| ChecksumModel.NoOverflow | crc_checksum.cpp:7-20 | up to 131074 bytes the sum stays within 32 bits |
| ChecksumModel.ComputedIff | crc_checksum.cpp:7-26 | for a buffer of any length: the result is the checksum exactly if the lost carries are a multiple of 65535 and no non-zero sum became zero |
| ChecksumModel.BoundIsSharp | crc_checksum.cpp:7-20 | a buffer of 131075 bytes whose result is wrong |
| ChecksumModel.Fold | crc_checksum.cpp:22-24 | the folding loop gives the folded word and runs at most twice |
| ChecksumModel.AddUp | crc_checksum.cpp:10-20 | the summing loop and the left-over byte give the sum of the words modulo 2^32 |
| ChecksumModel.ComputeChecksum | crc_checksum.cpp:3-26 | the result of checksum for every length, and that it is the checksum up to 131074 bytes |
| ChecksumModel.VerifiesIff | crc_checksum.cpp:3-26 | a word behind an even number of bytes makes the checksum 0 exactly if it is their checksum, or the other zero (section 4.1 of RFC 1071) |
| ChecksumModel.SwapsChecksum | crc_checksum.cpp:10-17 | swapping the bytes of every word swaps the bytes of the checksum (section 2 of RFC 1071) |
| ChecksumModel.SameBytesOnBothMachines | crc_checksum.cpp:14 | machines of both byte orders store the same two bytes for an even number of bytes |
| ChecksumModel.LeftOverIsPaddedIff | crc_checksum.cpp:19-20 | the left-over byte counts as padded with zero exactly on a little-endian machine or if it is zero |
| UrlStream.UrlFile.WriteCallback | curl/fopen.c:94-125 | takes the whole piece, or as much as there is room for if realloc fails, and appends it |
| UrlStream.UrlFile.Receive | curl/fopen.c:94-125 | takes every piece whole, or as much of it as there is room for where memory is refused |
| UrlStream.UrlFile.FillBuffer | curl/fopen.c:128-208 | makes rounds only if the transfer runs and the buffer has at most want bytes; stops behind the first round after which the transfer is over or want bytes are there, and fails only when no round is left; takes exactly what those rounds bring |
| UrlStream.UrlFile.UseBuffer | curl/fopen.c:211-230 | removes exactly the first want bytes, and the buffer itself if those are all |
| UrlStream.UrlFile.Feof | curl/fopen.c:312-332 | true exactly if nothing is buffered and the transfer is over; then everything accepted was delivered |
| UrlStream.UrlFile.Fread | curl/fopen.c:334-372 | makes the rounds of fill_buffer for nmemb * size bytes; copies the first min(want, available) bytes, counts whole items, and fails exactly for item size 0 with data present; a short read means the end or a failure |
| UrlStream.UrlFile.LineLength | curl/fopen.c:395-400 | the search ends behind the first newline, or at the limit |
| UrlStream.UrlFile.Fgets | curl/fopen.c:374-420 | makes the rounds of fill_buffer for size - 1 bytes; NULL exactly if no data is available; otherwise a prefix of the data, zero-terminated, with no newline except possibly last, and as long as size, newline and data allow |
| UrlStream.Open | curl/fopen.c:232-277 | null if and only if the first transfer gave no data and is over; otherwise a file that holds what the transfer handed over |
| UrlStream.EofMeansAll | curl/fopen.c:312-332 | when url_feof says so, everything that was accepted has been copied |
| UrlStream.Session | curl/fopen.c:312-420 | over any calls, and data arriving in between: each call copies exactly what it should of what the one before left, and at every time the bytes copied, followed by those buffered, are the bytes accepted |

## Left out

- Integer width: sums are proved to fit `int` in Floyd and both Dijkstras, and for the knapsack exactly if its answer fits; the spiral's counter is unbounded here, and from 0 its numbers fit `int` exactly if n is at most 46340.
- Thread pool: signal masks, thread attributes, real time, failing `malloc` and the ring of all pools. The cancellation of a job is that it may end at any time.
- Thread pool: cancellation of a thread that is inside `thr_pool_wait` or `thr_pool_destroy`, and a call made after or while `free(pool)` runs.
- PoolCode.ThrPool.JobReturned: the list node of an active worker is allocated anew for each job, while the source reuses one on the worker's stack.
- PoolCode.ThrPool.WorkerLoop: a method runs one critical section; the thread's wait and what it does after the wait are two calls.
- SharedQueueCode.SharedQueue.PushStep: the notification after the unlock is a step of the machine alone; the pairs of overloads for copied and moved elements are one method.
- `SharedBufferFail` and `FixedSizeAllocator`, which rest on a container that is not shown.
- FloydMatrix.Floyd: the lists of nodes that Floyd collects. They are appended to without being cleared (`graph.cpp:180-182`), so they are not the paths.
- DijkstraLex.ShortestPath: any matrix is allowed, symmetric or not; `addEdge`, which makes it symmetric, is not modelled.
- TreeProgram.CreateTree: requires a name before the first opening brace, as without one the source pushes an uninitialised pointer; `destroy_tree` is not modelled.
- WordSearch.Solution.Exist: requires a rectangular board and a non-empty word, without which the source reads outside of its vectors.
- KnapsackModel.Knapsack: requires non-negative weights and capacity, without which the source reads outside of its vector.
- UrlStream.UrlFile.FillBuffer: `select`, descriptor sets and time-outs; what the transfer library does is a schedule that is part of the call, and a schedule that ends stands for a failing `curl_multi_fdset`.
- UrlStream.UrlFile.Fgets: requires a size of at least 1, as size 0 lets the source write outside of the caller's memory.
- UrlStream.UrlFile.Fread: sizes are unbounded; the caller's memory holds nmemb * size bytes.
- `url_rewind`, `url_fclose`, plain files behind the same interface, and printing and reading everywhere.
- The other demos of the repository: they show one language feature or call a library, and hold no algorithm, protocol or state of their own.

# aRibeiroPlatform core in Dafny

A Dafny model of four parts of the aRibeiroPlatform C++ library, with proofs about each.

- **Hybrid sort engine** (`DynamicSort` and the fork-join `hybrid_*` functions). It sorts 32-bit keys, or records made of a key and an index.
  - The *bucket* gather scatters the keys into 128 lists by key range. The *counting* gather scatters them stably into a scratch buffer by a prefix sum of the bucket sizes. Both then sort each bucket with a base sort (`std::sort` or the radix/counting sort) and place it at its offset.
  - The *merge* gather sorts `size / threads` blocks, then runs rounds of two-way merges, doubling the run width, between the array and a scratch buffer.
  - The task-queue engine runs the same phases as jobs on a queue. `task_run` takes one job and releases a semaphore. The caller acquires the semaphore once per bucket, block or merge job.
- **Data objects.**
  - `ObjectQueue`: a FIFO list, or an ordered list with binary-search insertion and removal.
  - `ObjectPool`: reuses released objects in FIFO order.
  - `ObjectBuffer`: a grow-only byte buffer.
- **Inter-process queues.** `PlatformQueueIPC` and `PlatformLowLatencyQueueIPC` are byte rings in shared memory. Messages are framed by a 4-byte length header.
- **Process launcher** (`PlatformProcess`): `findAndReplaceAll`, the Windows application name and command line, the `p<pid>` id string, and the POSIX argv with backslash continuation.

How things are modelled:

- Elements are a type parameter with a key function. The key domain (signed or unsigned 32-bit) is a value.
- The two base sorts are opaque: each is a function parameter known only to return a sorted permutation of its input.
- Buffers are sequences.
- The engine's memory is a record of named buffers, and a job is a datatype over ranges of those buffers.
- A call that stops the program (`ARIBEIRO_ABORT`) returns `Aborted`.

Modules, one per file:

| module | file | models |
|---|---|---|
| `Results` | results.dfy | `Option` and `Outcome` (completes or aborts) |
| `Keys` | keys.dfy | key domains, the bucket index, base sorts, sortedness and stability |
| `Buckets` | buckets.dfy | bucket lists, offsets, counting, prefix sum, stable scatter |
| `OpenMP` | openmp.dfy | `hybrid_bucket_*` and `hybrid_counting_*` |
| `Merging` | merge.dfy | the two-pointer merge, merge jobs, rounds, the block phase, `hybrid_merge_*` |
| `TaskQueue` | taskqueue.dfy | jobs, `task_run`, and `bucket_*`, `counting_*` and `merge_*` on the job queue |
| `IndexedMerge` | indexed.dfy | the record merge of `merge_*_IndexInt32`, as written and as intended |
| `Engine` | engine.dfy | the `DynamicSort` constructor and the `sort_*` entry points |
| `ObjectBuffers` | objectbuffer.dfy | `ObjectBuffer` |
| `Queues` | queue.dfy | `ObjectQueue` |
| `Pools` | pool.dfy | `ObjectPool` |
| `RingQueues` | ipc.dfy | the ring buffer, framing and both IPC queues |
| `Processes` | process.dfy | the string logic of `PlatformProcess` |

`findAndReplaceAll` with an empty search string never returns. Each round inserts the replacement at `pos` and moves `pos` past it, so the distance from `pos` to the end of the string stays the original length. With an empty replacement, `pos` does not move at all. Either way `find("", pos)` succeeds in every round. The model returns `None` for an empty search string, and `Processes.EmptySearchNeverEnds` proves that the loop keeps finding a match.

## Model

| member | source | states |
|---|---|---|
| Keys.BucketBounds | src/AlgorithmsOpenMP.cpp:14-21 | bucket `b` holds exactly the keys whose offset from the domain minimum lies in [b·2^25, (b+1)·2^25) |
| Keys.BucketMonotone | src/AlgorithmsOpenMP.cpp:14-21 | a smaller key never lands in a later bucket |
| Keys.ApplySortSorts | src/AlgorithmsThread.cpp:436-445 | each algorithm permutes its range, and every algorithm other than `_none` sorts it |
| Buckets.BucketsArePartition | src/AlgorithmsOpenMP.cpp:18-23 | distributing into the 128 buckets loses and invents no element |
| Buckets.ConcatOfSortedBucketsIsSorted | src/AlgorithmsOpenMP.cpp:32-39 | sorted buckets laid out in bucket order give a sorted array |
| Buckets.GatherResultIsSortedPermutation | src/AlgorithmsOpenMP.cpp:10-42 | a bucket-based gather returns a permutation of its input, sorted whenever a base sort is selected; with `_none` it only partitions into buckets |
| Buckets.GatherIntoLists | src/AlgorithmsOpenMP.cpp:18-23 | the scan leaves each list holding exactly the elements of its bucket, in input order |
| Buckets.ListOffsets | src/AlgorithmsOpenMP.cpp:25-30 | `a_offset[i]` is the total size of the lists before `i` |
| Buckets.CountBuckets | src/AlgorithmsOpenMP.cpp:153-158 | `counting[b]` is the number of elements in bucket `b` |
| Buckets.PrefixSumInPlace | src/AlgorithmsOpenMP.cpp:161-167 | the in-place pass turns the counts into their exclusive prefix sums |
| Buckets.BucketSizesTotal | src/AlgorithmsOpenMP.cpp:153-158 | the bucket counts add up to the input size |
| Buckets.Scatter | src/AlgorithmsOpenMP.cpp:169-179 | the scatter leaves every bucket in its own slot of the scratch buffer, in input order (stable); each cursor ends at the start of the next slot; the buffer past `size` is untouched |
| OpenMP.CopySortedLists | src/AlgorithmsOpenMP.cpp:32-39 | after the copy loop the array is the concatenation of the sorted lists, in bucket order |
| OpenMP.HybridBucket | src/AlgorithmsOpenMP.cpp:10-42 | the fork-join bucket gather leaves the sorted buckets in bucket order |
| OpenMP.CopySlot | src/AlgorithmsOpenMP.cpp:182-187 | one copy-back iteration places bucket `i` sorted after the buckets before it, and keeps the scratch slots after `i` |
| OpenMP.SortSlotsAndCopy | src/AlgorithmsOpenMP.cpp:181-188 | the copy-back loop leaves the array holding every bucket sorted, in order, and the scratch buffer past `size` untouched |
| OpenMP.HybridCounting | src/AlgorithmsOpenMP.cpp:134-192 | the fork-join counting gather gives the same array as the bucket gather |
| Merging.MergePermutes | src/AlgorithmsOpenMP.cpp:364-388 | the two-pointer merge's output is the multiset union of its runs |
| Merging.MergeSorted | src/AlgorithmsOpenMP.cpp:364-388 | merging two sorted runs gives a sorted run |
| Merging.MergeStable | src/AlgorithmsOpenMP.cpp:371-378 | for every key, the merge outputs the left run's elements with that key, then the right run's |
| Merging.MergeJob | src/AlgorithmsThread.cpp:238-282 | a merge job writes the merge of runs [i, i+ec) and [i+ec, i+2ec), clipped to `size`, into the same range of `out`, copying an unpaired run unchanged, and leaves the rest of `out` alone |
| Merging.RoundPermutes | src/AlgorithmsOpenMP.cpp:346-390 | a merge round permutes its input and keeps its length |
| Merging.RoundDoublesRuns | src/AlgorithmsOpenMP.cpp:346-397 | a round turns sorted runs of width `ec` into sorted runs of width `2ec` |
| Merging.RoundStable | src/AlgorithmsOpenMP.cpp:346-390 | a round over sorted runs keeps the elements of each key in their order |
| Merging.MergeRound | src/AlgorithmsOpenMP.cpp:345-390 | the jobs of one round tile the output with the merged run pairs, and there are ceil(size / 2ec) of them |
| Merging.MergeRoundsSorted | src/AlgorithmsOpenMP.cpp:342-398 | rounds that start from sorted runs end with a sorted array |
| Merging.MergeRoundsStable | src/AlgorithmsOpenMP.cpp:342-398 | rounds that start from sorted runs keep the elements of each key in their order |
| Merging.BlockSize | src/AlgorithmsOpenMP.cpp:321-324 | the block size is never zero |
| Merging.SortBlocks | src/AlgorithmsOpenMP.cpp:327-334 | the block loop sorts each block [i, min(i+bs, size)) in place, and there are ceil(size / bs) blocks |
| Merging.BlocksSorted | src/AlgorithmsOpenMP.cpp:327-334 | with a base sort selected, the block phase leaves sorted runs of the block width |
| Merging.MergeGather | src/AlgorithmsOpenMP.cpp:314-405 | sorting the blocks, running the rounds between the array and the scratch buffer, then copying back leaves the merge gather's result in the array, whichever buffer the last round ended in |
| Merging.MergeGatherCorrect | src/AlgorithmsOpenMP.cpp:314-405 | the merge gather returns a permutation; with a base sort it is sorted, and when the selected base sort is stable it is a stable sort |
| TaskQueue.RunSortSorts | src/AlgorithmsThread.cpp:448-459 | a sort job leaves its range a permutation of itself, sorted unless the algorithm is `_none` |
| TaskQueue.RunMerge | src/AlgorithmsThread.cpp:238-282 | a merge job writes only the output range [i, min(i+2ec, size)) and changes no other buffer |
| TaskQueue.Run | src/AlgorithmsThread.cpp:429-600 | running any job keeps every buffer's length, and a job whose pointers do not fit changes nothing |
| TaskQueue.TaskRun | src/AlgorithmsThread.cpp:423-603 | a signalled dequeue returns without a release; otherwise the job runs and exactly one release follows |
| TaskQueue.RunAll | src/AlgorithmsThread.cpp:645-646 | draining the queue with one task per queued job releases once per job |
| TaskQueue.SortAndCopyEffect | src/AlgorithmsThread.cpp:435-447 | a sort-and-copy job leaves its sorted range in both the sort range and the destination, and changes no other buffer apart from the radix sort's scratch range, which the model does not write |
| TaskQueue.OnlySortEffect | src/AlgorithmsThread.cpp:448-459 | an only-sort job sorts its range in place and changes nothing else apart from the radix sort's scratch range, which the model does not write |
| TaskQueue.ReleasesBalance | src/AlgorithmsThread.cpp:627-649 | every bucket either releases directly or enqueues exactly one job, so the 128 acquires are matched |
| TaskQueue.EnqueueBucketJobs | src/AlgorithmsThread.cpp:627-642 | the enqueue loop queues one job per non-empty list, in list order, and releases once per empty list |
| TaskQueue.BucketGather | src/AlgorithmsThread.cpp:605-653 | the queued bucket gather leaves the sorted buckets in bucket order; releases and acquires are both 128 |
| TaskQueue.CountingReleasesBalance | src/AlgorithmsThread.cpp:698-721 | every bucket range either releases directly or enqueues exactly one job |
| TaskQueue.CountingJobsWellFormed | src/AlgorithmsThread.cpp:705-711 | every job the counting gather enqueues lies inside the array and the scratch buffer |
| TaskQueue.EnqueueCountingJobs | src/AlgorithmsThread.cpp:698-714 | the enqueue loop queues one job per non-empty range, in bucket order, and releases once per empty range |
| TaskQueue.CountingGather | src/AlgorithmsThread.cpp:656-723 | the queued counting gather leaves the sorted buckets in bucket order; releases and acquires are both 128 |
| TaskQueue.AcquireLoop | src/AlgorithmsThread.cpp:752-753 | the stepped acquire loop runs ceil(n / step) times |
| TaskQueue.EnqueueBlockJobs | src/AlgorithmsThread.cpp:735-746 | one only-sort job per block, ceil(size / bs) in all |
| TaskQueue.QueueBlocks | src/AlgorithmsThread.cpp:734-753 | the queued block phase gives the same array as the fork-join block phase, with as many acquires as releases |
| TaskQueue.EnqueueRoundJobs | src/AlgorithmsThread.cpp:766-769 | one merge job per run pair, ceil(size / 2ec) in all |
| TaskQueue.QueueRound | src/AlgorithmsThread.cpp:765-774 | a queued round writes the round's result into the output buffer and leaves the input buffer alone |
| TaskQueue.QueueRounds | src/AlgorithmsThread.cpp:757-785 | the queued round loop, with its final copy back, leaves the result of all rounds in the array |
| TaskQueue.MergeGather | src/AlgorithmsThread.cpp:726-786 | the queued merge gather leaves the merge gather's result in the array, with as many acquires as releases; for the record kinds this is the intended record merge, not the word merge as written |
| IndexedMerge.RecordsOfWords | src/AlgorithmsThread.cpp:544-545 | viewing records as words and reading them back as records gives the same records |
| IndexedMerge.JobAsWritten | src/AlgorithmsThread.cpp:544-545 | the indexed merge job as written keeps the length of the output |
| IndexedMerge.JobAsWrittenBreaksRecords | src/AlgorithmsThread.cpp:544-545 | as written, one job turns the records [(3,0),(1,1)] into [(0,3), stale record], which is not a permutation |
| IndexedMerge.RecordJobKeepsRecords | src/AlgorithmsThread.cpp:331-375 | the record merge writes a permutation of its input range, keeps everything else, and on sorted runs writes a sorted and stable merge |
| IndexedMerge.MergeGatherAsWritten | src/AlgorithmsThread.cpp:1090-1149 | `merge_IndexInt32` as written keeps the array length |
| IndexedMerge.MergeGatherAsWrittenLosesRecords | src/AlgorithmsThread.cpp:1090-1149 | with two threads, [(3,0),(1,1)] ends as [(0,3),(9,10)], where the intended gather returns a permutation |
| Engine.Create | src/AlgorithmsThread.cpp:1331-1344 | the constructor keeps the threshold and starts with an empty, owned scratch buffer |
| Engine.Sort | src/AlgorithmsThread.cpp:1358-1392 | a `sort_*` call leaves the selected strategy's result in the array, balances releases against acquires, and sizes the scratch buffer to `size` elements; for the record kinds the merge strategy is the intended record merge |
| Engine.SortResultCorrect | src/AlgorithmsThread.cpp:1358-1392 | every call permutes the array; it is sorted exactly when a base sort is named and, for a large input, a gather too; otherwise it is unchanged |
| Engine.SortResultsAgreeOnKeys | src/AlgorithmsThread.cpp:1358-1392 | any two sorting configurations give the same key sequence on the same input |
| Engine.IntSortResultsEqual | src/AlgorithmsThread.cpp:1358-1392 | for plain integer arrays every sorting configuration gives the very same array |
| Engine.BackendsAgree | src/AlgorithmsThread.cpp:605-723 | the queued and the fork-join bucket and counting gathers all produce the same array |
| Engine.MergeBackendsAgree | src/AlgorithmsThread.cpp:726-786 | the queued and the fork-join merge gathers produce the same array |
| ObjectBuffers.Empty | src/DataObject/ObjectBuffer.h:39-45 | a new buffer is owned, empty and has no storage |
| ObjectBuffers.FromExternalAsWritten | src/DataObject/ObjectBuffer.h:31-37 | the external constructor records the size and marks the buffer external, with no allocation of its own |
| ObjectBuffers.FromExternal | src/DataObject/ObjectBuffer.h:31-37 | the intended external constructor gives back the caller's bytes as its contents |
| ObjectBuffers.ExternalAsWrittenUnreadable | src/DataObject/ObjectBuffer.h:31-32 | as written, a non-empty external buffer has unknown contents, where the intended one holds the caller's bytes |
| ObjectBuffers.Free | src/DataObject/ObjectBuffer.h:78-93 | after `free` nothing is in use or allocated, and the buffer counts as owned |
| ObjectBuffers.SetSize | src/DataObject/ObjectBuffer.h:51-68 | `setSize` sets the size; it reallocates exactly when growing past the allocation, and otherwise keeps the storage |
| ObjectBuffers.SetSizeKeepsOwned | src/DataObject/ObjectBuffer.h:51-68 | an owned buffer stays owned, and its allocation is the larger of the old allocation and the new size |
| ObjectBuffers.SetSizeIdempotent | src/DataObject/ObjectBuffer.h:54-55 | setting the same size twice is the same as setting it once |
| ObjectBuffers.ShrinkThenRegrow | src/DataObject/ObjectBuffer.h:57-65 | shrinking and growing back to the old size gives back the same buffer |
| ObjectBuffers.Copy | src/DataObject/ObjectBuffer.h:70-76 | a copy takes the source's size |
| ObjectBuffers.CopyCopies | src/DataObject/ObjectBuffer.h:70-76 | after a copy the contents equal the source's; an owned buffer always takes the copy and stays owned |
| Queues.NewQueue | src/DataObject/ObjectQueue.h:99-102 | a new queue is empty and not ordered |
| Queues.Enqueue | src/DataObject/ObjectQueue.h:389-401 | enqueue aborts exactly on an ordered queue, and otherwise appends at the back, keeping every earlier element in place |
| Queues.Dequeue | src/DataObject/ObjectQueue.h:434-448 | non-blocking dequeue takes the front element, or returns `T()` on an empty queue and changes nothing; it never reports a signal |
| Queues.RDequeue | src/DataObject/ObjectQueue.h:451-482 | rdequeue takes the back element, or returns `T()` on an empty queue and changes nothing |
| Queues.EnqueueDequeueFifo | src/DataObject/ObjectQueue.h:389-449 | first-in first-out: enqueueing behind a non-empty queue does not change what dequeue takes next |
| Queues.EnqueueRDequeueUndo | src/DataObject/ObjectQueue.h:451-482 | rdequeue right after enqueue returns the element and restores the queue |
| Queues.PeekSizeAgreeWithDequeue | src/DataObject/ObjectQueue.h:403-449 | peek shows what dequeue takes, and size counts what dequeue can take |
| Queues.InsertSorted | src/DataObject/ObjectQueue.h:201-293 | ordered insertion inserts `v` at one position and changes nothing else |
| Queues.InsertSortedKeepsOrder | src/DataObject/ObjectQueue.h:201-293 | ordered insertion keeps a sorted list sorted |
| Queues.EnqueueInOrder | src/DataObject/ObjectQueue.h:201-293 | aborts exactly on a non-empty plain queue; otherwise the queue becomes ordered, gains `v`, and stays ascending |
| Queues.EnqueueInOrderReverse | src/DataObject/ObjectQueue.h:295-387 | the same in descending order |
| Queues.RemoveAsWritten | src/DataObject/ObjectQueue.h:105-198 | the removal as written erases at most one element |
| Queues.Remove | src/DataObject/ObjectQueue.h:105-198 | the intended removal either changes nothing or erases one copy of `v` and returns it; an absent `v` gives `T()` and no change |
| Queues.RemoveFindsPresent | src/DataObject/ObjectQueue.h:156-190 | on a sorted list the removal hits exactly when `v` is there |
| Queues.RemoveAsWrittenAgreesWhenPresent | src/DataObject/ObjectQueue.h:156-190 | the removal as written is right whenever `v` is present |
| Queues.RemoveAsWrittenErasesNeighbour | src/DataObject/ObjectQueue.h:163-170 | as written, removing the absent 2 from [1, 3] erases and returns 3 |
| Queues.InsertThenRemove | src/DataObject/ObjectQueue.h:105-293 | removing what was just inserted gives back the list and the value |
| Queues.RemoveKeepsOrder | src/DataObject/ObjectQueue.h:105-198 | the removal keeps a sorted list sorted |
| Queues.RemoveInOrder | src/DataObject/ObjectQueue.h:105-198 | removeInOrder on a queue: `T()` and no change for an absent value; one copy fewer for a present one |
| Queues.RemoveInOrderAsWritten | src/DataObject/ObjectQueue.h:105-198 | the queue operation as written agrees with the intended one whenever the value is present |
| Queues.OperationsKeepValid | src/DataObject/ObjectQueue.h:389-401 | every queue operation keeps an ordered queue sorted in its direction |
| Pools.NewPool | src/DataObject/ObjectPool.h:58-62 | a new pool owns nothing and is not released |
| Pools.Create | src/DataObject/ObjectPool.h:105-132 | create aborts exactly on a destroyed pool; otherwise it reuses the oldest available object or records the new one, and records it in use with the caller's `ignore_placement_new_delete` flag, leaving every other in-use entry as it was |
| Pools.Release | src/DataObject/ObjectPool.h:134-157 | release aborts on a destroyed pool or an address not in use; otherwise exactly that entry leaves the in-use map and moves to the back of the available queue |
| Pools.Destroy | src/DataObject/ObjectPool.h:64-103 | the destructor deletes every owned object and leaves the pool released and empty |
| Pools.CreateKeepsValid | src/DataObject/ObjectPool.h:105-132 | create keeps the bookkeeping consistent and hands out an address that was not in use |
| Pools.ReleaseKeepsValid | src/DataObject/ObjectPool.h:134-157 | release keeps the bookkeeping consistent and the set of owned objects unchanged |
| Pools.DoubleReleaseAborts | src/DataObject/ObjectPool.h:141-155 | releasing the same object twice aborts |
| Pools.ReleaseThenCreateReuses | src/DataObject/ObjectPool.h:105-157 | a released object is the next one handed out when nothing else waits |
| RingQueues.Init | src/Platform/PlatformQueueIPC.cpp:265-271 | a fresh header describes an empty, consistent ring of one slot per message, when the 32-bit products do not wrap and the capacity is at most 2^31 |
| RingQueues.AdvanceIsSlot | src/Platform/PlatformQueueIPC.cpp:452 | in a ring of at most 2^31 bytes the uint32 position sum does not wrap, so a position advances by a single wrap at the capacity |
| RingQueues.AdvanceWrapsAboveMax | src/Platform/PlatformQueueIPC.cpp:452 | in a ring of 0xC000_0000 bytes the uint32 sum wraps: advancing 0x6000_0000 from 0xB000_0000 lands on 0x1000_0000, not 0x5000_0000 |
| RingQueues.WrittenAppends | src/Platform/PlatformQueueIPC.cpp:438-454 | the one or two copies of `write_buffer`, with the uint32 position update, append the data to the bytes a ring of at most 2^31 bytes holds |
| RingQueues.WriteBuffer | src/Platform/PlatformQueueIPC.cpp:438-454 | `write_buffer` aborts exactly when the data does not fit, and otherwise appends it, on a ring of at most 2^31 bytes |
| RingQueues.TakenSplits | src/Platform/PlatformQueueIPC.cpp:456-472 | `read_buffer`, with the uint32 position update, copies out the first `n` held bytes and keeps the rest in order, on a ring of at most 2^31 bytes |
| RingQueues.ReadBuffer | src/Platform/PlatformQueueIPC.cpp:456-472 | `read_buffer` aborts exactly when fewer than `n` bytes are held |
| RingQueues.WriteThenReadBuffer | src/Platform/PlatformQueueIPC.cpp:438-472 | reading as many bytes as were written into an empty ring returns them |
| RingQueues.HeaderRoundTrip | src/Platform/PlatformQueueIPC.cpp:537-540 | decoding an encoded length header gives the length back |
| RingQueues.HeaderBytesRoundTrip | src/Platform/PlatformQueueIPC.cpp:605-607 | every 4-byte header is the encoding of the length it decodes to |
| RingQueues.WriteFrameAppends | src/Platform/PlatformQueueIPC.cpp:537-541 | a framed write appends the message to the ring's messages |
| RingQueues.ReadFrameTakesFirst | src/Platform/PlatformQueueIPC.cpp:605-608 | a framed read takes out the oldest message whole |
| RingQueues.WriteHasEnoughSpace | src/Platform/PlatformQueueIPC.cpp:474-496 | false without a semaphore; abort on a request larger than the ring; otherwise whether the request fits in the free space |
| RingQueues.Write | src/Platform/PlatformQueueIPC.cpp:502-548 | a failed write leaves the ring as it was; a successful one appends the framed message; only a blocking write may wait |
| RingQueues.Read | src/Platform/PlatformQueueIPC.cpp:573-615 | a failed read leaves everything as it was; only a blocking read may wait, and only on an empty ring |
| RingQueues.QueueFifo | src/Platform/PlatformQueueIPC.cpp:502-615 | a message that fits is written, and the next read returns the oldest message, leaving the rest |
| RingQueues.WriteHasEnoughSpaceChecked | src/Platform/PlatformQueueIPC.cpp:474-496 | the space test without wrap-around: abort exactly on a message too big for the ring, yes exactly when it fits |
| RingQueues.EnoughSpaceMeansWrite | src/Platform/PlatformQueueIPC.cpp:474-548 | when the checked test says yes, the following write succeeds in every mode |
| RingQueues.SpaceTestsAgreeBelowWrap | src/Platform/PlatformQueueIPC.cpp:480-488 | the two space tests agree on every message whose request does not wrap |
| RingQueues.WrappedRequestSaysYes | src/Platform/PlatformQueueIPC.cpp:480-482 | as written, a message of 2^32−2 bytes gets a yes on an empty 8-byte ring, yet the write aborts |
| RingQueues.WriteHasEnoughSpaceLowLatency | src/Platform/PlatformLowLatencyQueueIPC.cpp:477-495 | the low-latency space test is the queue's test on an open queue |
| RingQueues.WriteLowLatency | src/Platform/PlatformLowLatencyQueueIPC.cpp:501-536 | the low-latency write is the queue's write on an open queue |
| RingQueues.ReadLowLatency | src/Platform/PlatformLowLatencyQueueIPC.cpp:542-567 | the low-latency read never waits; it fails on an empty ring and otherwise reads like the queue |
| RingQueues.LowLatencyReadsInOrder | src/Platform/PlatformLowLatencyQueueIPC.cpp:542-567 | the low-latency queue returns its oldest message, and nothing from an empty ring |
| Processes.FindFrom | src/Platform/PlatformProcess.cpp:12-19 | a position the search returns lies at or after the start and is an occurrence of the search string |
| Processes.FindFromFirst | src/Platform/PlatformProcess.cpp:12-19 | the search skips no earlier occurrence, and it finds nothing only when there is no occurrence at or after the start |
| Processes.FindAndReplaceAll | src/Platform/PlatformProcess.h:103-113 | the loop finishes exactly when the search string is non-empty |
| Processes.FindAndReplaceAllIsReplaceAll | src/Platform/PlatformProcess.cpp:10-20 | for a non-empty search string the loop computes the left-to-right replace-all |
| Processes.AbsentNeedleUnchanged | src/Platform/PlatformProcess.cpp:10-20 | a string without the search string comes back unchanged |
| Processes.ReplacementNotRescanned | src/Platform/PlatformProcess.cpp:18-19 | inserted text is not searched again: "a" → "aa" in "aa" gives "aaaa" |
| Processes.EmptySearchNeverEnds | src/Platform/PlatformProcess.cpp:12-19 | with an empty search string, every round finds a match and the position never passes the end |
| Processes.SlashReplaceChars | src/Platform/PlatformProcess.cpp:33 | after replacing "/" by the separator, a character occurs exactly when it occurred outside "/" or is in the separator |
| Processes.SlashReplaceMaps | src/Platform/PlatformProcess.cpp:33 | with a one-character separator, every "/" becomes it and every other character stays in place |
| Processes.WindowsApplicationName | src/Platform/PlatformProcess.cpp:33-36 | the Windows application name always contains a dot |
| Processes.WindowsApplicationNameSpec | src/Platform/PlatformProcess.cpp:33-36 | no "/" is left, and ".exe" is appended exactly when the name had no dot |
| Processes.CommandLine | src/Platform/PlatformProcess.cpp:51-54 | the command line is the quoted application name, followed by a space and the arguments only when there are arguments |
| Processes.CommandLineRoundTrip | src/Platform/PlatformProcess.cpp:51-54 | the application name and the arguments can be read back from the command line |
| Processes.DecimalRoundTrip | src/Platform/PlatformProcess.cpp:76 | `%u` digits parse back to the number |
| Processes.PidString | src/Platform/PlatformProcess.cpp:74-78 | the id string is "p" followed by decimal digits |
| Processes.PidStringRoundTrip | src/Platform/PlatformProcess.cpp:74-78 | distinct process ids give distinct id strings: the id parses back |
| Processes.ArgvPlain | src/Platform/PlatformProcess.h:180-188 | the header's argv has tokens + 2 slots, and the last one is NULL |
| Processes.ArgvPlainExec | src/Platform/PlatformProcess.h:180-188 | execve sees the application name followed by the tokens |
| Processes.ArgvAsWritten | src/Platform/PlatformProcess.cpp:87-105 | the argv as written has tokens + 2 slots with the application first |
| Processes.ArgvAsWrittenLosesFirstPart | src/Platform/PlatformProcess.cpp:93-101 | as written, the tokens `a\`, `b\`, `c` reach execve as "b c", where the intended argument is "a b c" |
| Processes.ArgvAsWrittenIsPlainWithoutContinuation | src/Platform/PlatformProcess.cpp:87-105 | with no token ending in a backslash, the argv as written is the header's plain one |
| Processes.ArgvJoined | src/Platform/PlatformProcess.cpp:87-105 | the intended argv has tokens + 2 slots with the application first |
| Processes.ArgvJoinedExec | src/Platform/PlatformProcess.cpp:93-105 | execve sees the application, then the tokens with each backslash-ended token joined to the next |
| Processes.ArgvJoinedIsPlainWithoutContinuation | src/Platform/PlatformProcess.h:180-188 | with no continuation, the intended argv and the header's plain argv are the same array |

## Left out

- Threads, the thread pool, mutexes, semaphores and `blockingAcquire` are not modelled as concurrency. Jobs run one after another in queue order. This is sound because concurrent jobs write disjoint ranges. The semaphore appears only as counts of releases and acquires.
- Integer widths in the engine are not modelled: sizes and offsets are unbounded naturals. The 64-bit bucket arithmetic is exact for 32-bit keys, and the model requires keys inside the domain.
- The radix sort's scratch range, `std::sort` and the index comparators are opaque sorts, known only to return a sorted permutation. Their stability is a separate assumption, used only for the stability results.
- Merging.MergeGatherCorrect: the stability clause assumes the selected base sort is stable. `std::sort` is not stable, so on the `std` path the clause says nothing about the source. On the radix path it needs only the radix/counting sort to be stable, which the model does not prove because that sort is opaque. Permutation and sortedness hold unconditionally.
- The record layout (`IndexInt32` as two 32-bit words, key first) is assumed in `IndexedMerge`. The source does not state it.
- `ObjectQueue` is modelled on `int` elements with `T()` as 0. Blocking mode, signals and `isSignaledFromCurrentThread` are not modelled; only the non-blocking paths are.
- `ObjectPool`: the placement new and destroy calls change no bookkeeping and are left out. The allocator's `new T()` is an address passed in.
- `ObjectBuffer`: the allocator's bytes are a parameter. `malloc_aligned` alignment is not modelled beyond being recorded. The mutex is left out.
- IPC queues: shared-memory creation and naming, file locks, `shm_mutex`, the abort handler, `printStats` and `readHasElement` are not modelled. Waiting is a `Waits` outcome rather than a retry loop.
- The low-latency queue's `blocking_on_read` semaphore is left out. The read is modelled after its acquire.
- The 4-byte length header is modelled in little-endian byte order, the order `memcpy` gives on the supported targets.
- `PlatformProcess`: process creation, `fork`, `execve`, the PATH search, `waitExit`, `isRunning` and `kill` are system calls and are left out. `PlatformPath::SEPARATOR` is a parameter. `StringUtil::tokenizer` is not modelled: the tokens are a parameter.
- The POSIX child's argv as written points at tokens through `&args_str[i][0]`. The model keeps slots as token indices, which has the same effect because the loop rewrites the tokens in place.
- Processes.FindAndReplaceAll: returns `None` for an empty search string instead of looping forever; the endless loop is stated separately by `Processes.EmptySearchNeverEnds`.
- RingQueues.Init: states the capacity only when the 32-bit products do not wrap. Otherwise the capacity is the wrapped value. The ring is consistent only if that value is non-zero and at most 2^31.
- RingQueues.Valid: admits only rings of at most 2^31 bytes. In a larger ring the uint32 sums `write_pos + size` and `read_pos + size` (PlatformQueueIPC.cpp lines 452 and 470, PlatformLowLatencyQueueIPC.cpp lines 451 and 471) can wrap. The positions then no longer describe the bytes held (`RingQueues.AdvanceWrapsAboveMax`), so `RingQueues.WrittenAppends`, `RingQueues.WriteBuffer`, `RingQueues.TakenSplits` and the framed-message results say nothing about such rings.
- RingQueues.WrittenAppends: holds only for rings of at most 2^31 bytes. Above that the uint32 sum at PlatformQueueIPC.cpp line 452 can wrap (see `RingQueues.Valid`).
- RingQueues.WriteBuffer: appends the data only on rings of at most 2^31 bytes, for the same reason.
- RingQueues.TakenSplits: holds only for rings of at most 2^31 bytes. Above that the uint32 sum at PlatformQueueIPC.cpp line 470 can wrap.
- TaskQueue.SortAndCopyEffect: the radix/counting sort also writes its scratch range (`_tmp_array_*`, AlgorithmsThread.cpp lines 438, 475, 512 and 559). The model does not write it, so the claim that every other buffer is unchanged leaves out that range. The scratch range is the auxiliary buffer at the list's offset for bucket jobs, and the job's own destination range for counting jobs.
- TaskQueue.OnlySortEffect: the same radix scratch write (AlgorithmsThread.cpp lines 451, 488, 530 and 577) is not modelled. For block jobs the scratch range is the auxiliary buffer at the block, so `TaskQueue.BlockJobEffect` and `TaskQueue.QueueBlocks` state an unchanged auxiliary buffer that the source does not keep. The merge phase reads that buffer only after a merge round has written all of it.
- TaskQueue.RunSort: the radix sort's scratch range, written by the source with contents that depend on the sort, keeps its contents in the model.
- TaskQueue.MergeGather: for `IndexInt32` and `IndexUInt32` the merge jobs run the intended record merge. As written, the source routes them to `merge_job_int32`/`merge_job_uint32` on the records' words (AlgorithmsThread.cpp lines 544-545 and 591-592), which loses records (Findings row 1, `IndexedMerge.MergeGatherAsWrittenLosesRecords`).
- Engine.Sort: for `IndexInt32` and `IndexUInt32` with the merge strategy, the result promised is the intended record merge. The source as written runs the word merge and can lose records (Findings row 1).
- TaskQueue.Run: a job whose pointers do not fit its buffers is modelled as doing nothing, where the source has undefined behaviour. The engine only creates jobs that fit, which `TaskQueue.CountingJobsWellFormed` and the other well-formedness lemmas show.
- Merging.MergeGather: only the first `size` elements of a caller-supplied scratch buffer take part; what the source does past them is not stated.

## Findings

| source | as written | input that shows it | evidently intended | confidence | as-written member | corrected member |
|---|---|---|---|---|---|---|
| src/AlgorithmsThread.cpp:544-545 | the `IndexInt32` merge job calls `merge_job_int32` on the records viewed as 32-bit words, with record indices | two threads, records [(3,0), (1,1)], stale scratch [(7,8), (9,10)]: the array ends as [(0,3), (9,10)] | call `merge_job_IndexInt32`, which merges whole records by key | not executed | IndexedMerge.MergeGatherAsWrittenLosesRecords | IndexedMerge.RecordJobKeepsRecords |
| src/Platform/PlatformProcess.cpp:93-101 | a continued token overwrites the previous argv slot, so a chain of two continuations loses its first part | tokens `a\`, `b\`, `c`: execve gets "b c" | one argument "a b c" | not executed | Processes.ArgvAsWrittenLosesFirstPart | Processes.ArgvJoinedExec |
| src/DataObject/ObjectQueue.h:163-170 | when the binary search narrows to one element without a hit, the next element is erased and returned | removing 2 from [1, 3] returns 3 and leaves [1] | return `T()` and erase nothing | not executed | Queues.RemoveAsWrittenErasesNeighbour | Queues.RemoveFindsPresent |
| src/DataObject/ObjectBuffer.h:32 | `data = data` assigns the parameter to itself, so the member is never set | any external buffer of non-zero size: its contents are indeterminate | `this->data = data` | not executed | ObjectBuffers.ExternalAsWrittenUnreadable | ObjectBuffers.FromExternal |
| src/Platform/PlatformQueueIPC.cpp:480-482 | `size + sizeof(header)` is computed in 32 bits and wraps | a message of 2^32−2 bytes on an empty 8-byte ring: `writeHasEnoughSpace` says yes, and the write then aborts | reject any message whose header and payload exceed the ring | not executed | RingQueues.WrappedRequestSaysYes | RingQueues.EnoughSpaceMeansWrite |

/**
 The task-queue backend (`DynamicSort`). Every phase enqueues jobs into a FIFO
 queue, posts one `task_run` per queued job to the thread pool and then
 acquires the semaphore once per work item. Jobs name the buffers they work on;
 `task_run` dequeues one job, runs it and releases the semaphore once.

 The phases are modelled as the sequential run of the queued jobs in queue
 order, and the barrier as the count of releases against the count of acquires.
 */
module TaskQueue {
  import opened Results
  import opened Keys
  import opened Buckets
  import M = Merging

  /** The buffers a job can point into: the caller's array, the engine's auxiliary buffer, or one bucket list. */
  datatype Buffer = ArrayA | AuxBuffer | BucketList(index: nat)

  /** `len` elements of one buffer starting at `start`. */
  datatype Range = Range(buf: Buffer, start: nat, len: nat)

  /** The element type a job was created for. */
  datatype DataKind = Int32 | UInt32 | IndexInt32 | IndexUInt32

  /**
   A queued job. A sort job sorts `sort` (with `scratch` as the radix sort's
   scratch range) and, for `SortAndCopy`, then copies `src` to `dst`. A merge job
   merges the runs at `i` of width `elementCount` from `input` into `output`.
   */
  datatype Job =
    | SortAndCopy(alg: Algorithm, data: DataKind, sort: Range, scratch: Range, dst: Range, src: Range)
    | OnlySort(alg: Algorithm, data: DataKind, sort: Range, scratch: Range)
    | MergeRuns(data: DataKind, input: Buffer, output: Buffer, i: nat, elementCount: nat, size: nat)

  /** The contents of every buffer a job can name. */
  datatype Memory<T> = Memory(a: seq<T>, aux: seq<T>, lists: seq<seq<T>>)

  predicate HasBuffer<T>(m: Memory<T>, b: Buffer) {
    b.BucketList? ==> b.index < |m.lists|
  }

  function Buf<T>(m: Memory<T>, b: Buffer): seq<T>
    requires HasBuffer(m, b)
  {
    match b
    case ArrayA => m.a
    case AuxBuffer => m.aux
    case BucketList(k) => m.lists[k]
  }

  /** Replaces the contents of buffer `b`; every other buffer keeps its contents. */
  function SetBuf<T>(m: Memory<T>, b: Buffer, s: seq<T>): (r: Memory<T>)
    requires HasBuffer(m, b)
    ensures HasBuffer(r, b) && Buf(r, b) == s && |r.lists| == |m.lists|
    ensures forall c {:trigger Buf(r, c)} :: HasBuffer(m, c) && c != b ==> Buf(r, c) == Buf(m, c)
  {
    match b
    case ArrayA => m.(a := s)
    case AuxBuffer => m.(aux := s)
    case BucketList(k) => m.(lists := m.lists[k := s])
  }

  /** The same buffers with the same lengths. */
  predicate SameShape<T>(m: Memory<T>, m': Memory<T>) {
    |m.a| == |m'.a| && |m.aux| == |m'.aux| && Sizes(m.lists) == Sizes(m'.lists)
  }

  predicate Fits<T>(m: Memory<T>, r: Range) {
    HasBuffer(m, r.buf) && r.start + r.len <= |Buf(m, r.buf)|
  }

  function Read<T>(m: Memory<T>, r: Range): seq<T>
    requires Fits(m, r)
  {
    Buf(m, r.buf)[r.start..r.start + r.len]
  }

  /** memcpy into a range: the range holds `s`, and nothing else changes. */
  function Write<T>(m: Memory<T>, r: Range, s: seq<T>): (m': Memory<T>)
    requires Fits(m, r) && |s| == r.len
    ensures SameShape(m, m') && Fits(m', r) && Read(m', r) == s
    ensures forall c {:trigger Buf(m', c)} :: HasBuffer(m, c) && c != r.buf ==> Buf(m', c) == Buf(m, c)
  {
    var x := Splice(Buf(m, r.buf), r.start, s);
    SetBufShape(m, r.buf, x);
    SetBuf(m, r.buf, x)
  }

  /** What the creator of a job guarantees: every pointer is valid for its length, and a copy does not overlap itself. */
  predicate WellFormed<T>(m: Memory<T>, j: Job) {
    match j
    case SortAndCopy(_, _, sort, scratch, dst, src) =>
      Fits(m, sort) && Fits(m, scratch) && Fits(m, dst) && Fits(m, src) &&
      dst.len == src.len && dst.buf != src.buf
    case OnlySort(_, _, sort, scratch) =>
      Fits(m, sort) && Fits(m, scratch)
    case MergeRuns(_, input, output, i, elementCount, size) =>
      HasBuffer(m, input) && HasBuffer(m, output) && input != output &&
      |Buf(m, input)| == |Buf(m, output)| == size && i < size && elementCount >= 1
  }

  lemma SameShapeKeepsBuffers<T>(m: Memory<T>, m': Memory<T>, b: Buffer)
    requires SameShape(m, m') && HasBuffer(m, b)
    ensures HasBuffer(m', b) && |Buf(m', b)| == |Buf(m, b)|
  {
    if b.BucketList? {
      assert Sizes(m.lists)[b.index] == Sizes(m'.lists)[b.index];
    }
  }

  /** Whether a job is well formed depends only on the buffers' lengths. */
  lemma WellFormedShape<T>(m: Memory<T>, m': Memory<T>, j: Job)
    requires SameShape(m, m') && WellFormed(m, j)
    ensures WellFormed(m', j)
  {
    match j
    case SortAndCopy(_, _, sort, scratch, dst, src) =>
      SameShapeKeepsBuffers(m, m', sort.buf);
      SameShapeKeepsBuffers(m, m', scratch.buf);
      SameShapeKeepsBuffers(m, m', dst.buf);
      SameShapeKeepsBuffers(m, m', src.buf);
    case OnlySort(_, _, sort, scratch) =>
      SameShapeKeepsBuffers(m, m', sort.buf);
      SameShapeKeepsBuffers(m, m', scratch.buf);
    case MergeRuns(_, input, output, _, _, _) =>
      SameShapeKeepsBuffers(m, m', input);
      SameShapeKeepsBuffers(m, m', output);
  }

  /**
   The sort half of a sort job: the range ends up a permutation of itself,
   sorted unless the algorithm is `_none`, and nothing else changes. The radix
   sort's scratch range is not written in this model.
   */
  function RunSort<T(!new)>(key: T -> int, alg: Algorithm, so: Sorters<T>, m: Memory<T>, sort: Range): (r: Memory<T>)
    requires ValidSorters(key, so) && Fits(m, sort)
    ensures SameShape(m, r) && Fits(r, sort)
    ensures Write(m, sort, Read(r, sort)) == r
  {
    var sorted := ApplySort(key, alg, so, Read(m, sort));
    Write(m, sort, sorted)
  }

  /** A sort job leaves its range a permutation of itself, sorted unless the algorithm is `_none`. */
  lemma RunSortSorts<T(!new)>(key: T -> int, alg: Algorithm, so: Sorters<T>, m: Memory<T>, sort: Range)
    requires ValidSorters(key, so) && Fits(m, sort)
    ensures multiset(Read(RunSort(key, alg, so, m, sort), sort)) == multiset(Read(m, sort))
    ensures alg != AlgNone ==> SortedBy(key, Read(RunSort(key, alg, so, m, sort), sort))
  {
    ApplySortSorts(key, alg, so, Read(m, sort));
  }

  /**
   merge_job_*: output[i, min(i+2ec, size)) receives the merge of the two runs
   of `input` at `i`; the rest of every buffer is unchanged.
   */
  function RunMerge<T>(key: T -> int, m: Memory<T>, input: Buffer, output: Buffer, i: nat, ec: nat, size: nat): (r: Memory<T>)
    requires HasBuffer(m, input) && HasBuffer(m, output) && input != output
    requires |Buf(m, input)| == |Buf(m, output)| == size && i < size && ec >= 1
    ensures SameShape(m, r) && HasBuffer(r, output) && |Buf(r, output)| == size
    ensures var e := M.Min(i + 2 * ec, size);
      Buf(r, output)[..i] == Buf(m, output)[..i] && Buf(r, output)[e..] == Buf(m, output)[e..]
    ensures SetBuf(m, output, Buf(r, output)) == r
  {
    var x := M.MergeInto(key, Buf(m, input), Buf(m, output), i, ec);
    SetBufShape(m, output, x);
    SetBuf(m, output, x)
  }

  lemma SetBufShape<T>(m: Memory<T>, b: Buffer, s: seq<T>)
    requires HasBuffer(m, b) && |s| == |Buf(m, b)|
    ensures SameShape(m, SetBuf(m, b, s))
  {
    var r := SetBuf(m, b, s);
    forall k | 0 <= k < |m.lists|
      ensures |r.lists[k]| == |m.lists[k]|
    {
      assert Buf(r, BucketList(k)) == r.lists[k];
      assert Buf(m, BucketList(k)) == m.lists[k];
    }
  }

  /**
   Running one dequeued job. `SortAndCopy` sorts and then always copies, even
   for the `_none` algorithm; `OnlySort` only sorts. Every merge job runs the
   key merge; the indexed kinds' routing as written is the subject of
   `IndexedMerge`. A job whose ranges do not fit its buffers would read and
   write out of bounds; no phase enqueues one (the `*JobsWellFormed` lemmas),
   and here it changes nothing.
   */
  function Run<T(!new)>(key: T -> int, so: Sorters<T>, m: Memory<T>, j: Job): (r: Memory<T>)
    requires ValidSorters(key, so)
    ensures SameShape(m, r)
    ensures !WellFormed(m, j) ==> r == m
  {
    if !WellFormed(m, j) then m else
    match j
    case SortAndCopy(alg, _, sort, _, dst, src) =>
      var m1 := RunSort(key, alg, so, m, sort);
      SameShapeKeepsBuffers(m, m1, dst.buf);
      SameShapeKeepsBuffers(m, m1, src.buf);
      Write(m1, dst, Read(m1, src))
    case OnlySort(alg, _, sort, _) =>
      RunSort(key, alg, so, m, sort)
    case MergeRuns(_, input, output, i, ec, size) =>
      RunMerge(key, m, input, output, i, ec, size)
  }

  /**
   task_run: dequeue one job. A signalled dequeue (`None`) returns at once
   without releasing the semaphore; otherwise the job runs and the semaphore is
   released exactly once. The second component counts the releases.
   */
  function TaskRun<T(!new)>(key: T -> int, so: Sorters<T>, m: Memory<T>, job: Option<Job>): (r: (Memory<T>, nat))
    requires ValidSorters(key, so)
    ensures job.None? ==> r == (m, 0)
    ensures job.Some? ==> r.1 == 1 && SameShape(m, r.0)
  {
    match job
    case None => (m, 0)
    case Some(j) => (Run(key, so, m, j), 1)
  }

  /**
   The queue drained in FIFO order by one `task_run` per posted task, one task
   having been posted per queued job; the second component counts the releases.
   */
  function RunAll<T(!new)>(key: T -> int, so: Sorters<T>, m: Memory<T>, jobs: seq<Job>): (r: (Memory<T>, nat))
    requires ValidSorters(key, so)
    ensures SameShape(m, r.0) && r.1 == |jobs|
    decreases |jobs|
  {
    if jobs == [] then (m, 0)
    else
      var (m1, n1) := TaskRun(key, so, m, Some(jobs[0]));
      var (m2, n2) := RunAll(key, so, m1, jobs[1..]);
      (m2, n1 + n2)
  }

  /**
   A SortAndCopy job whose copy source is its own sort range, with the
   destination in another buffer: the sort range ends up sorted by the selected
   strategy, the destination receives a copy of it, and every other buffer is
   unchanged.
   */
  lemma SortAndCopyEffect<T(!new)>(key: T -> int, so: Sorters<T>, m: Memory<T>, alg: Algorithm, data: DataKind,
                                   sort: Range, scratch: Range, dst: Range)
    requires ValidSorters(key, so) && WellFormed(m, SortAndCopy(alg, data, sort, scratch, dst, sort))
    requires sort.buf != dst.buf
    ensures var r, sorted := Run(key, so, m, SortAndCopy(alg, data, sort, scratch, dst, sort)),
                             ApplySort(key, alg, so, Read(m, sort));
      HasBuffer(r, sort.buf) && HasBuffer(r, dst.buf) &&
      Buf(r, sort.buf) == Splice(Buf(m, sort.buf), sort.start, sorted) &&
      Buf(r, dst.buf) == Splice(Buf(m, dst.buf), dst.start, sorted) &&
      forall c :: HasBuffer(m, c) && c != sort.buf && c != dst.buf ==> Buf(r, c) == Buf(m, c)
  {
    var sorted := ApplySort(key, alg, so, Read(m, sort));
    var m1 := Write(m, sort, sorted);
    assert m1 == RunSort(key, alg, so, m, sort);
    SameShapeKeepsBuffers(m, m1, dst.buf);
    assert Read(m1, sort) == sorted;
    var r := Write(m1, dst, sorted);
    assert Buf(r, sort.buf) == Buf(m1, sort.buf);
  }

  /** An OnlySort job sorts its range in place and changes nothing else. */
  lemma OnlySortEffect<T(!new)>(key: T -> int, so: Sorters<T>, m: Memory<T>, alg: Algorithm, data: DataKind,
                                sort: Range, scratch: Range)
    requires ValidSorters(key, so) && WellFormed(m, OnlySort(alg, data, sort, scratch))
    ensures var r := Run(key, so, m, OnlySort(alg, data, sort, scratch));
      HasBuffer(r, sort.buf) &&
      Buf(r, sort.buf) == Splice(Buf(m, sort.buf), sort.start, ApplySort(key, alg, so, Read(m, sort))) &&
      forall c :: HasBuffer(m, c) && c != sort.buf ==> Buf(r, c) == Buf(m, c)
  {
    var sorted := ApplySort(key, alg, so, Read(m, sort));
  }

  // ---------------------------------------------------------------------------
  // bucket_*

  /**
   The job bucket_* enqueues for a non-empty list `b` of `n` elements at offset
   `offset`: sort the list in place (the radix scratch is the auxiliary buffer
   at the offset), then copy it to the caller's array at the offset.
   */
  function BucketJob(alg: Algorithm, data: DataKind, b: nat, n: nat, offset: nat): Job {
    SortAndCopy(alg, data, Range(BucketList(b), 0, n), Range(AuxBuffer, offset, n),
                Range(ArrayA, offset, n), Range(BucketList(b), 0, n))
  }

  /** The jobs enqueued for lists b, b+1, ...: one per non-empty list, in list order. */
  function BucketJobsFrom<T>(alg: Algorithm, data: DataKind, lists: seq<seq<T>>, offsets: seq<nat>, b: nat): seq<Job>
    requires |offsets| == |lists| && b <= |lists|
    decreases |lists| - b
  {
    if b == |lists| then []
    else (if |lists[b]| == 0 then [] else [BucketJob(alg, data, b, |lists[b]|, offsets[b])])
         + BucketJobsFrom(alg, data, lists, offsets, b + 1)
  }

  /** The number of empty lists from `b` on; each of them releases the semaphore directly. */
  function EmptyFrom<T>(lists: seq<seq<T>>, b: nat): nat
    requires b <= |lists|
    decreases |lists| - b
  {
    if b == |lists| then 0 else (if |lists[b]| == 0 then 1 else 0) + EmptyFrom(lists, b + 1)
  }

  /** Every list either releases directly or enqueues exactly one job. */
  lemma {:induction false} ReleasesBalance<T>(alg: Algorithm, data: DataKind, lists: seq<seq<T>>, offsets: seq<nat>, b: nat)
    requires |offsets| == |lists| && b <= |lists|
    ensures |BucketJobsFrom(alg, data, lists, offsets, b)| + EmptyFrom(lists, b) == |lists| - b
    decreases |lists| - b
  {
    if b < |lists| {
      ReleasesBalance(alg, data, lists, offsets, b + 1);
    }
  }

  /** The memory a list-based phase runs in: the lists as gathered, and both flat buffers long enough for all of them. */
  ghost predicate ListLayout<T>(m: Memory<T>, lists: seq<seq<T>>, offsets: seq<nat>) {
    offsets == ExclusivePrefix(Sizes(lists)) && Sizes(m.lists) == Sizes(lists) &&
    SumFirst(Sizes(lists), |lists|) <= |m.a| && SumFirst(Sizes(lists), |lists|) <= |m.aux|
  }

  lemma {:induction false} BucketJobsWellFormed<T>(m: Memory<T>, alg: Algorithm, data: DataKind,
                                                   lists: seq<seq<T>>, offsets: seq<nat>, b: nat)
    requires ListLayout(m, lists, offsets) && b <= |lists|
    ensures forall j <- BucketJobsFrom(alg, data, lists, offsets, b) :: WellFormed(m, j)
    decreases |lists| - b
  {
    if b < |lists| {
      BucketJobsWellFormed(m, alg, data, lists, offsets, b + 1);
      if |lists[b]| != 0 {
        BucketJobWellFormed(m, alg, data, lists, offsets, b);
      }
    }
  }

  /** The job of a non-empty list fits the list and both flat buffers. */
  lemma BucketJobWellFormed<T>(m: Memory<T>, alg: Algorithm, data: DataKind,
                               lists: seq<seq<T>>, offsets: seq<nat>, b: nat)
    requires ListLayout(m, lists, offsets) && b < |lists|
    ensures WellFormed(m, BucketJob(alg, data, b, |lists[b]|, offsets[b]))
  {
    SumFirstMonotone(Sizes(lists), b + 1, |lists|);
    assert |m.lists[b]| == Sizes(m.lists)[b] == |lists[b]|;
  }

  /** Running a queue whose head is `job` is running `job`, then the rest of the queue. */
  lemma RunAllCons<T(!new)>(key: T -> int, so: Sorters<T>, m: Memory<T>, job: Job, rest: seq<Job>)
    requires ValidSorters(key, so)
    ensures RunAll(key, so, m, [job] + rest).0 == RunAll(key, so, Run(key, so, m, job), rest).0
  {
    var jobs := [job] + rest;
    assert jobs[0] == job && jobs[1..] == rest;
  }

  /**
   Where the bucket phase stands before list `b`: the array holds the sorted
   lists before `b`, and the lists from `b` on are as gathered.
   */
  ghost predicate BucketProgress<T(!new)>(key: T -> int, so: Sorters<T>, alg: Algorithm, lists: seq<seq<T>>,
                                         offsets: seq<nat>, m: Memory<T>, b: nat)
    requires ValidSorters(key, so)
  {
    ListLayout(m, lists, offsets) && b <= |lists| && SumFirst(Sizes(lists), |lists|) == |m.a| &&
    (forall c :: b <= c < |lists| ==> m.lists[c] == lists[c]) &&
    Concat(SortEach(key, alg, so, lists)[..b]) <= m.a
  }

  /** The job of a non-empty list `b` moves the bucket phase on to list b+1. */
  lemma BucketJobStep<T(!new)>(key: T -> int, so: Sorters<T>, alg: Algorithm, data: DataKind,
                               lists: seq<seq<T>>, offsets: seq<nat>, m: Memory<T>, b: nat)
    requires ValidSorters(key, so) && BucketProgress(key, so, alg, lists, offsets, m, b)
    requires b < |lists| && |lists[b]| != 0
    requires WellFormed(m, BucketJob(alg, data, b, |lists[b]|, offsets[b]))
    ensures BucketProgress(key, so, alg, lists, offsets, Run(key, so, m, BucketJob(alg, data, b, |lists[b]|, offsets[b])), b + 1)
  {
    var ps := SortEach(key, alg, so, lists);
    SortEachSizes(key, alg, so, lists);
    var n := |lists[b]|;
    var job := BucketJob(alg, data, b, n, offsets[b]);
    var sort := Range(BucketList(b), 0, n);
    assert Read(m, sort) == lists[b];
    SortAndCopyEffect(key, so, m, alg, data, sort, Range(AuxBuffer, offsets[b], n), Range(ArrayA, offsets[b], n));
    var m1 := Run(key, so, m, job);
    assert ps[b] == ApplySort(key, alg, so, lists[b]);
    WriteRun(m.a, ps, b);
    assert m1.a == Buf(m1, ArrayA);
    forall c | b + 1 <= c < |lists|
      ensures m1.lists[c] == lists[c]
    {
      assert Buf(m1, BucketList(c)) == Buf(m, BucketList(c));
    }
  }

  /** An empty list enqueues nothing and adds nothing to the array. */
  lemma BucketSkipStep<T(!new)>(key: T -> int, so: Sorters<T>, alg: Algorithm,
                                lists: seq<seq<T>>, offsets: seq<nat>, m: Memory<T>, b: nat)
    requires ValidSorters(key, so) && BucketProgress(key, so, alg, lists, offsets, m, b)
    requires b < |lists| && |lists[b]| == 0
    ensures BucketProgress(key, so, alg, lists, offsets, m, b + 1)
  {
    var ps := SortEach(key, alg, so, lists);
    SortEachSizes(key, alg, so, lists);
    assert ps[b] == [];
    WriteRun(m.a, ps, b);
    assert Splice(m.a, SumFirst(Sizes(ps), b), ps[b]) == m.a;
  }

  /**
   Running the jobs of lists b, b+1, ... in queue order from the progress
   state at `b` leaves the array holding all lists sorted, in list order.
   */
  lemma {:induction false} BucketJobsRun<T(!new)>(key: T -> int, so: Sorters<T>, alg: Algorithm, data: DataKind,
                                                  lists: seq<seq<T>>, offsets: seq<nat>, m: Memory<T>, b: nat)
    requires ValidSorters(key, so) && BucketProgress(key, so, alg, lists, offsets, m, b)
    ensures RunAll(key, so, m, BucketJobsFrom(alg, data, lists, offsets, b)).0.a == Concat(SortEach(key, alg, so, lists))
    decreases |lists| - b
  {
    if b == |lists| {
      var ps := SortEach(key, alg, so, lists);
      SortEachSizes(key, alg, so, lists);
      ConcatLength(ps, |ps|);
      assert ps[..|ps|] == ps;
    } else {
      var m' := BucketHead(key, so, alg, data, lists, offsets, m, b);
      BucketJobsRun(key, so, alg, data, lists, offsets, m', b + 1);
    }
  }

  /** Handling list `b` (skipping it when empty, running its job otherwise) moves the bucket phase on to list b+1. */
  lemma BucketHead<T(!new)>(key: T -> int, so: Sorters<T>, alg: Algorithm, data: DataKind,
                            lists: seq<seq<T>>, offsets: seq<nat>, m: Memory<T>, b: nat) returns (m': Memory<T>)
    requires ValidSorters(key, so) && BucketProgress(key, so, alg, lists, offsets, m, b) && b < |lists|
    ensures BucketProgress(key, so, alg, lists, offsets, m', b + 1)
    ensures RunAll(key, so, m, BucketJobsFrom(alg, data, lists, offsets, b)).0
         == RunAll(key, so, m', BucketJobsFrom(alg, data, lists, offsets, b + 1)).0
  {
    var rest := BucketJobsFrom(alg, data, lists, offsets, b + 1);
    if |lists[b]| == 0 {
      BucketSkipStep(key, so, alg, lists, offsets, m, b);
      assert BucketJobsFrom(alg, data, lists, offsets, b) == rest;
      m' := m;
    } else {
      var job := BucketJob(alg, data, b, |lists[b]|, offsets[b]);
      assert BucketJobsFrom(alg, data, lists, offsets, b) == [job] + rest;
      BucketJobWellFormed(m, alg, data, lists, offsets, b);
      RunAllCons(key, so, m, job, rest);
      BucketJobStep(key, so, alg, data, lists, offsets, m, b);
      m' := Run(key, so, m, job);
    }
  }

  /** Moving one job from the head of the pending queue to the end of the enqueued prefix keeps the whole queue. */
  lemma AppendAssoc(jobs: seq<Job>, job: Job, rest: seq<Job>)
    ensures jobs + ([job] + rest) == (jobs + [job]) + rest
  {
  }

  /** The enqueue loop of bucket_*: a release for every empty list, a job for every other. */
  method EnqueueBucketJobs<T>(alg: Algorithm, data: DataKind, lists: seq<seq<T>>, aOffset: seq<nat>)
    returns (jobs: seq<Job>, releases: nat)
    requires |aOffset| == |lists|
    ensures jobs == BucketJobsFrom(alg, data, lists, aOffset, 0)
    ensures releases == EmptyFrom(lists, 0)
  {
    jobs, releases := [], 0;
    var i: nat := 0;
    while i < |lists|
      invariant i <= |lists|
      invariant jobs + BucketJobsFrom(alg, data, lists, aOffset, i) == BucketJobsFrom(alg, data, lists, aOffset, 0)
      invariant releases + EmptyFrom(lists, i) == EmptyFrom(lists, 0)
    {
      if |lists[i]| == 0 {
        releases := releases + 1;
      } else {
        var job := BucketJob(alg, data, i, |lists[i]|, aOffset[i]);
        assert BucketJobsFrom(alg, data, lists, aOffset, i) == [job] + BucketJobsFrom(alg, data, lists, aOffset, i + 1);
        AppendAssoc(jobs, job, BucketJobsFrom(alg, data, lists, aOffset, i + 1));
        jobs := jobs + [job];
      }
      i := i + 1;
    }
  }

  /**
   bucket_*: gather into lists and offsets as the fork-join backend does, then
   release the semaphore for every empty list and enqueue one SortAndCopy job
   for every other. The queue is drained, and the 128 acquires are matched by
   exactly 128 releases. `aux0` is the auxiliary buffer, sized to the input.
   */
  method BucketGather<T(!new)>(d: Domain, key: T -> int, so: Sorters<T>, data: DataKind, alg: Algorithm,
                               a0: seq<T>, aux0: seq<T>)
    returns (a: seq<T>, releases: nat, acquires: nat)
    requires ValidSorters(key, so) && AllInDomain(d, key, a0) && |aux0| == |a0|
    ensures a == GatherResult(d, key, alg, so, a0)
    ensures releases == acquires == BucketCount
  {
    var lists := GatherIntoLists(d, key, a0);
    var aOffset := ListOffsets(lists);
    var jobs;
    jobs, releases := EnqueueBucketJobs(alg, data, lists, aOffset);
    var m := Memory(a0, aux0, lists);
    BucketSizesTotal(d, key, a0);
    BucketJobsRun(key, so, alg, data, lists, aOffset, m, 0);
    var ran := RunAll(key, so, m, jobs);
    a := ran.0.a;
    ReleasesBalance(alg, data, lists, aOffset, 0);
    releases := releases + ran.1;
    acquires := BucketCount;
  }

  // ---------------------------------------------------------------------------
  // counting_*

  /**
   The job counting_* enqueues for a non-empty bucket range [offset, offset+n)
   of the auxiliary buffer: sort it in place (the radix scratch is the same
   range of the caller's array), then copy it to that range of the array.
   */
  function CountingJob(alg: Algorithm, data: DataKind, n: nat, offset: nat): Job {
    SortAndCopy(alg, data, Range(AuxBuffer, offset, n), Range(ArrayA, offset, n),
                Range(ArrayA, offset, n), Range(AuxBuffer, offset, n))
  }

  /** The jobs enqueued for buckets b, b+1, ...: one per non-empty range [offset[b], counting[b]). */
  function CountingJobsFrom(alg: Algorithm, data: DataKind, offset: seq<nat>, counting: seq<nat>, b: nat): seq<Job>
    requires |offset| == |counting| && b <= |counting|
    requires forall c :: 0 <= c < |counting| ==> offset[c] <= counting[c]
    decreases |counting| - b
  {
    if b == |counting| then []
    else (if counting[b] - offset[b] == 0 then [] else [CountingJob(alg, data, counting[b] - offset[b], offset[b])])
         + CountingJobsFrom(alg, data, offset, counting, b + 1)
  }

  /** The number of empty ranges from `b` on. */
  function EmptyRangesFrom(offset: seq<nat>, counting: seq<nat>, b: nat): nat
    requires |offset| == |counting| && b <= |counting|
    decreases |counting| - b
  {
    if b == |counting| then 0
    else (if counting[b] <= offset[b] then 1 else 0) + EmptyRangesFrom(offset, counting, b + 1)
  }

  lemma {:induction false} CountingReleasesBalance(alg: Algorithm, data: DataKind, offset: seq<nat>, counting: seq<nat>, b: nat)
    requires |offset| == |counting| && b <= |counting|
    requires forall c :: 0 <= c < |counting| ==> offset[c] <= counting[c]
    ensures |CountingJobsFrom(alg, data, offset, counting, b)| + EmptyRangesFrom(offset, counting, b) == |counting| - b
    decreases |counting| - b
  {
    if b < |counting| {
      CountingReleasesBalance(alg, data, offset, counting, b + 1);
      var n := counting[b] - offset[b];
      CountingJobsUnfold(alg, data, offset, counting, b, n);
      assert EmptyRangesFrom(offset, counting, b) == (if n == 0 then 1 else 0) + EmptyRangesFrom(offset, counting, b + 1);
    }
  }

  /** The bucket ranges after the scatter: range b starts at the total size of the buckets before it and has bucket b's size. */
  ghost predicate ScatteredRanges<T>(bs: seq<seq<T>>, offset: seq<nat>, counting: seq<nat>) {
    offset == ExclusivePrefix(Sizes(bs)) && |counting| == |bs| &&
    forall c :: 0 <= c < |bs| ==> counting[c] == offset[c] + |bs[c]|
  }

  /**
   Where the counting phase stands before bucket `b`: the array holds the sorted
   buckets before `b`, and the auxiliary buffer still holds buckets from `b` on
   as scattered.
   */
  ghost predicate CountingProgress<T(!new)>(key: T -> int, so: Sorters<T>, alg: Algorithm, bs: seq<seq<T>>,
                                           m: Memory<T>, b: nat)
    requires ValidSorters(key, so)
  {
    b <= |bs| && SumFirst(Sizes(bs), |bs|) == |m.a| == |m.aux| &&
    Concat(SortEach(key, alg, so, bs)[..b]) <= m.a && SlotsFrom(m.aux, Sizes(bs), bs, b)
  }

  /** Every job counting_* enqueues fits the buffers, as long as every range ends inside both of them. */
  lemma {:induction false} CountingJobsWellFormed<T>(m: Memory<T>, alg: Algorithm, data: DataKind,
                                                     offset: seq<nat>, counting: seq<nat>, b: nat)
    requires |offset| == |counting| && b <= |counting| && |m.a| == |m.aux|
    requires forall c :: 0 <= c < |counting| ==> offset[c] <= counting[c] <= |m.a|
    ensures forall j <- CountingJobsFrom(alg, data, offset, counting, b) :: WellFormed(m, j)
    decreases |counting| - b
  {
    if b < |counting| {
      CountingJobsWellFormed(m, alg, data, offset, counting, b + 1);
      CountingJobsUnfold(alg, data, offset, counting, b, counting[b] - offset[b]);
    }
  }

  /** After the scatter every bucket range ends inside the array. */
  lemma ScatteredRangesInside<T>(bs: seq<seq<T>>, offset: seq<nat>, counting: seq<nat>)
    requires ScatteredRanges(bs, offset, counting)
    ensures forall c :: 0 <= c < |counting| ==> offset[c] <= counting[c] <= SumFirst(Sizes(bs), |bs|)
  {
    forall c | 0 <= c < |counting|
      ensures offset[c] <= counting[c] <= SumFirst(Sizes(bs), |bs|)
    {
      RangeEnd(bs, offset, counting, c);
    }
  }

  /** Range `c` ends where the buckets up to `c` end. */
  lemma RangeEnd<T>(bs: seq<seq<T>>, offset: seq<nat>, counting: seq<nat>, c: nat)
    requires ScatteredRanges(bs, offset, counting) && c < |bs|
    ensures offset[c] <= counting[c] == SumFirst(Sizes(bs), c + 1) <= SumFirst(Sizes(bs), |bs|)
  {
    var sz := Sizes(bs);
    assert offset[c] == SumFirst(sz, c) && sz[c] == |bs[c]|;
    SumFirstMonotone(sz, c + 1, |bs|);
  }

  /** The job of a non-empty bucket fits the buffers. */
  lemma CountingJobWellFormed<T>(m: Memory<T>, alg: Algorithm, data: DataKind,
                                 bs: seq<seq<T>>, offset: seq<nat>, counting: seq<nat>, b: nat)
    requires ScatteredRanges(bs, offset, counting) && b < |bs|
    requires SumFirst(Sizes(bs), |bs|) == |m.a| == |m.aux|
    ensures WellFormed(m, CountingJob(alg, data, |bs[b]|, offset[b]))
  {
    RangeEnd(bs, offset, counting, b);
  }

  /** The job of a non-empty bucket `b` moves the counting phase on to bucket b+1. */
  lemma CountingJobStep<T(!new)>(key: T -> int, so: Sorters<T>, alg: Algorithm, data: DataKind,
                                 bs: seq<seq<T>>, offset: seq<nat>, counting: seq<nat>, m: Memory<T>, b: nat)
    requires ValidSorters(key, so) && ScatteredRanges(bs, offset, counting)
    requires CountingProgress(key, so, alg, bs, m, b) && b < |bs|
    requires WellFormed(m, CountingJob(alg, data, |bs[b]|, offset[b]))
    ensures CountingProgress(key, so, alg, bs, Run(key, so, m, CountingJob(alg, data, |bs[b]|, offset[b])), b + 1)
  {
    var ps, sz := SortEach(key, alg, so, bs), Sizes(bs);
    SortEachSizes(key, alg, so, bs);
    var n, lo := |bs[b]|, offset[b];
    var sort := Range(AuxBuffer, lo, n);
    assert SlotHolds(m.aux, sz, b, bs[b]);
    assert Read(m, sort) == bs[b];
    SortAndCopyEffect(key, so, m, alg, data, sort, Range(ArrayA, lo, n), Range(ArrayA, lo, n));
    var m1 := Run(key, so, m, CountingJob(alg, data, n, lo));
    assert ps[b] == ApplySort(key, alg, so, bs[b]);
    WriteRun(m.a, ps, b);
    assert m1.a == Buf(m1, ArrayA) && m1.aux == Buf(m1, AuxBuffer);
    LaterSlotsKept(m.aux, sz, bs, b, ps[b]);
  }

  /** An empty bucket enqueues nothing and adds nothing to the array. */
  lemma CountingSkipStep<T(!new)>(key: T -> int, so: Sorters<T>, alg: Algorithm, bs: seq<seq<T>>, m: Memory<T>, b: nat)
    requires ValidSorters(key, so) && CountingProgress(key, so, alg, bs, m, b)
    requires b < |bs| && |bs[b]| == 0
    ensures CountingProgress(key, so, alg, bs, m, b + 1)
  {
    var ps := SortEach(key, alg, so, bs);
    SortEachSizes(key, alg, so, bs);
    assert ps[b] == [];
    WriteRun(m.a, ps, b);
    assert Splice(m.a, SumFirst(Sizes(ps), b), ps[b]) == m.a;
  }

  /** The queue from bucket `b` on: bucket b's job, if its range is non-empty, then the rest. */
  lemma CountingJobsUnfold(alg: Algorithm, data: DataKind, offset: seq<nat>, counting: seq<nat>, b: nat, n: nat)
    requires |offset| == |counting| && b < |counting|
    requires forall c :: 0 <= c < |counting| ==> offset[c] <= counting[c]
    requires n == counting[b] - offset[b]
    ensures n == 0 ==> CountingJobsFrom(alg, data, offset, counting, b) == CountingJobsFrom(alg, data, offset, counting, b + 1)
    ensures n != 0 ==> (CountingJobsFrom(alg, data, offset, counting, b) ==
      [CountingJob(alg, data, n, offset[b])] + CountingJobsFrom(alg, data, offset, counting, b + 1))
  {
  }

  /** Once every bucket is done the array holds all buckets sorted, in order. */
  lemma CountingDone<T(!new)>(key: T -> int, so: Sorters<T>, alg: Algorithm, bs: seq<seq<T>>, m: Memory<T>)
    requires ValidSorters(key, so) && CountingProgress(key, so, alg, bs, m, |bs|)
    ensures m.a == Concat(SortEach(key, alg, so, bs))
  {
    var ps := SortEach(key, alg, so, bs);
    SortEachSizes(key, alg, so, bs);
    ConcatLength(ps, |ps|);
    assert ps[..|ps|] == ps;
  }

  /** Running the jobs of buckets b, b+1, ... in queue order leaves the array holding all buckets sorted, in order. */
  lemma {:induction false} CountingJobsRun<T(!new)>(key: T -> int, so: Sorters<T>, alg: Algorithm, data: DataKind,
                                                    bs: seq<seq<T>>, offset: seq<nat>, counting: seq<nat>, m: Memory<T>, b: nat)
    requires ValidSorters(key, so) && ScatteredRanges(bs, offset, counting)
    requires CountingProgress(key, so, alg, bs, m, b)
    ensures RunAll(key, so, m, CountingJobsFrom(alg, data, offset, counting, b)).0.a == Concat(SortEach(key, alg, so, bs))
    decreases |bs| - b
  {
    if b == |bs| {
      CountingDone(key, so, alg, bs, m);
    } else {
      CountingJobsUnfold(alg, data, offset, counting, b, |bs[b]|);
      if |bs[b]| == 0 {
        CountingSkipStep(key, so, alg, bs, m, b);
        CountingJobsRun(key, so, alg, data, bs, offset, counting, m, b + 1);
      } else {
        var job := CountingJob(alg, data, |bs[b]|, offset[b]);
        CountingJobWellFormed(m, alg, data, bs, offset, counting, b);
        RunAllCons(key, so, m, job, CountingJobsFrom(alg, data, offset, counting, b + 1));
        CountingJobStep(key, so, alg, data, bs, offset, counting, m, b);
        CountingJobsRun(key, so, alg, data, bs, offset, counting, Run(key, so, m, job), b + 1);
      }
    }
  }

  /** The enqueue loop of counting_*: a release for every empty range, a job for every other. */
  method EnqueueCountingJobs(alg: Algorithm, data: DataKind, offset: seq<nat>, counting: seq<nat>)
    returns (jobs: seq<Job>, releases: nat)
    requires |offset| == |counting|
    requires forall c :: 0 <= c < |counting| ==> offset[c] <= counting[c]
    ensures jobs == CountingJobsFrom(alg, data, offset, counting, 0)
    ensures releases == EmptyRangesFrom(offset, counting, 0)
  {
    jobs, releases := [], 0;
    var i: nat := 0;
    while i < |counting|
      invariant i <= |counting|
      invariant jobs + CountingJobsFrom(alg, data, offset, counting, i) == CountingJobsFrom(alg, data, offset, counting, 0)
      invariant releases + EmptyRangesFrom(offset, counting, i) == EmptyRangesFrom(offset, counting, 0)
    {
      var elementCount := counting[i] - offset[i];
      CountingJobsUnfold(alg, data, offset, counting, i, elementCount);
      if elementCount == 0 {
        releases := releases + 1;
      } else {
        var job := CountingJob(alg, data, elementCount, offset[i]);
        AppendAssoc(jobs, job, CountingJobsFrom(alg, data, offset, counting, i + 1));
        jobs := jobs + [job];
      }
      i := i + 1;
    }
  }

  /**
   counting_*: count, prefix-sum, snapshot and scatter into the auxiliary
   buffer as the fork-join backend does, then release the semaphore for every
   empty range and enqueue one SortAndCopy job for every other. The queue is
   drained, and the 128 acquires are matched by exactly 128 releases.
   */
  method CountingGather<T(!new)>(d: Domain, key: T -> int, so: Sorters<T>, data: DataKind, alg: Algorithm,
                                 a0: seq<T>, aux0: seq<T>)
    returns (a: seq<T>, releases: nat, acquires: nat)
    requires ValidSorters(key, so) && AllInDomain(d, key, a0) && |aux0| == |a0|
    ensures a == GatherResult(d, key, alg, so, a0)
    ensures releases == acquires == BucketCount
  {
    var counting := CountBuckets(d, key, a0);
    counting := PrefixSumInPlace(counting);
    var offset := counting;
    var aux;
    aux, counting := Scatter(d, key, a0, aux0, offset);
    BucketSizesTotal(d, key, a0);
    a, releases := QueueCounting(key, so, data, alg, BucketsOf(d, key, a0), offset, counting, a0, aux);
    acquires := BucketCount;
  }

  /**
   The queue half of counting_*, from the scattered auxiliary buffer on: a
   release for every empty range, a job for every other, and the queue drained.
   Every bucket's range is released exactly once.
   */
  method QueueCounting<T(!new)>(key: T -> int, so: Sorters<T>, data: DataKind, alg: Algorithm, bs: seq<seq<T>>,
                                offset: seq<nat>, counting: seq<nat>, a0: seq<T>, aux: seq<T>)
    returns (a: seq<T>, releases: nat)
    requires ValidSorters(key, so) && ScatteredRanges(bs, offset, counting)
    requires SumFirst(Sizes(bs), |bs|) == |a0| == |aux| && SlotsFrom(aux, Sizes(bs), bs, 0)
    ensures a == Concat(SortEach(key, alg, so, bs))
    ensures releases == |bs|
  {
    ScatteredRangesInside(bs, offset, counting);
    var jobs;
    jobs, releases := EnqueueCountingJobs(alg, data, offset, counting);
    var m := Memory(a0, aux, []);
    CountingJobsRun(key, so, alg, data, bs, offset, counting, m, 0);
    var ran := RunAll(key, so, m, jobs);
    a := ran.0.a;
    CountingReleasesBalance(alg, data, offset, counting, 0);
    releases := releases + ran.1;
  }

  // ---------------------------------------------------------------------------
  // merge_*

  /** The acquire loop `for (i = 0; i < n; i += step) acquire()`: ceil(n / step) acquires. */
  method AcquireLoop(n: nat, step: nat) returns (acquires: nat)
    requires step >= 1
    ensures acquires == M.Iterations(n, step)
  {
    acquires := 0;
    var i: nat := 0;
    while i < n
      invariant i == acquires * step
      invariant acquires == 0 || (acquires - 1) * step < n
    {
      M.CountStep(acquires, step);
      i := i + step;
      acquires := acquires + 1;
    }
    M.IterationsOfLoop(n, step, acquires);
  }

  /** The job for block [i, e) of the caller's array, with the same range of the auxiliary buffer as radix scratch. */
  function BlockJob(alg: Algorithm, data: DataKind, i: nat, e: nat): Job
    requires i <= e
  {
    OnlySort(alg, data, Range(ArrayA, i, e - i), Range(AuxBuffer, i, e - i))
  }

  /** The block jobs from block boundary `i` on: one per block [i, min(i+bs, size)). */
  function BlockJobsFrom(alg: Algorithm, data: DataKind, size: nat, bs: nat, i: nat): seq<Job>
    requires bs >= 1
    decreases size - i
  {
    if i >= size then [] else [BlockJob(alg, data, i, M.Min(i + bs, size))] + BlockJobsFrom(alg, data, size, bs, i + bs)
  }

  lemma BlockJobsUnfold(alg: Algorithm, data: DataKind, size: nat, bs: nat, i: nat)
    requires bs >= 1 && i < size
    ensures BlockJobsFrom(alg, data, size, bs, i) == [BlockJob(alg, data, i, M.Min(i + bs, size))] + BlockJobsFrom(alg, data, size, bs, i + bs)
  {
  }

  /** The block enqueue loop of merge_*: one job per block, ceil(size / bs) of them. */
  method EnqueueBlockJobs(alg: Algorithm, data: DataKind, size: nat, bs: nat) returns (jobs: seq<Job>)
    requires bs >= 1
    ensures jobs == BlockJobsFrom(alg, data, size, bs, 0)
    ensures |jobs| == M.Iterations(size, bs)
  {
    jobs := [];
    var i: nat := 0;
    var count: nat := 0;
    while i < size
      invariant i == count * bs && |jobs| == count
      invariant count == 0 || (count - 1) * bs < size
      invariant jobs + BlockJobsFrom(alg, data, size, bs, i) == BlockJobsFrom(alg, data, size, bs, 0)
    {
      jobs, i, count := EnqueueBlockStep(alg, data, size, bs, jobs, i, count);
    }
    M.IterationsOfLoop(size, bs, count);
  }

  /** One iteration of the block enqueue loop. */
  method EnqueueBlockStep(alg: Algorithm, data: DataKind, size: nat, bs: nat, jobs: seq<Job>, i: nat, count: nat)
    returns (jobs': seq<Job>, i': nat, count': nat)
    requires bs >= 1 && i < size
    requires i == count * bs && |jobs| == count
    requires jobs + BlockJobsFrom(alg, data, size, bs, i) == BlockJobsFrom(alg, data, size, bs, 0)
    ensures i' == count' * bs && |jobs'| == count' && (count' - 1) * bs < size && i' > i
    ensures jobs' + BlockJobsFrom(alg, data, size, bs, i') == BlockJobsFrom(alg, data, size, bs, 0)
  {
    var job := BlockJob(alg, data, i, M.Min(i + bs, size));
    BlockJobsAppend(alg, data, size, bs, jobs, i);
    M.CountStep(count, bs);
    jobs', i', count' := jobs + [job], i + bs, count + 1;
    assert i' == count' * bs && (count' - 1) * bs == i;
  }

  /** Moving block `i`'s job from the pending queue to the enqueued prefix keeps the whole queue. */
  lemma BlockJobsAppend(alg: Algorithm, data: DataKind, size: nat, bs: nat, jobs: seq<Job>, i: nat)
    requires bs >= 1 && i < size
    ensures jobs + BlockJobsFrom(alg, data, size, bs, i) ==
      (jobs + [BlockJob(alg, data, i, M.Min(i + bs, size))]) + BlockJobsFrom(alg, data, size, bs, i + bs)
  {
    BlockJobsUnfold(alg, data, size, bs, i);
  }

  lemma {:induction false} BlockJobsWellFormed<T>(m: Memory<T>, alg: Algorithm, data: DataKind, size: nat, bs: nat, i: nat)
    requires bs >= 1 && |m.a| == |m.aux| == size
    ensures forall j <- BlockJobsFrom(alg, data, size, bs, i) :: WellFormed(m, j)
    decreases size - i
  {
    if i < size {
      BlockJobsWellFormed(m, alg, data, size, bs, i + bs);
    }
  }

  /** The block job's ranges lie inside the array and the auxiliary buffer. */
  lemma BlockJobFits<T>(m: Memory<T>, alg: Algorithm, data: DataKind, i: nat, e: nat)
    requires i <= e <= |m.a| == |m.aux|
    ensures WellFormed(m, BlockJob(alg, data, i, e))
  {
  }

  /** The block job at `i` sorts block [i, e) of the array in place and leaves the auxiliary buffer alone. */
  lemma BlockJobEffect<T(!new)>(key: T -> int, so: Sorters<T>, alg: Algorithm, data: DataKind, m: Memory<T>, i: nat, e: nat)
    requires ValidSorters(key, so) && i <= e <= |m.a| == |m.aux|
    ensures WellFormed(m, BlockJob(alg, data, i, e))
    ensures var m1 := Run(key, so, m, BlockJob(alg, data, i, e));
      m1.aux == m.aux && m1.a == m.a[..i] + ApplySort(key, alg, so, m.a[i..e]) + m.a[e..]
  {
    BlockJobFits(m, alg, data, i, e);
    var sort := Range(ArrayA, i, e - i);
    RunOnlySort(key, so, m, alg, data, sort, Range(AuxBuffer, i, e - i));
    ReadArray(m, i, e);
    WriteArray(m, i, ApplySort(key, alg, so, m.a[i..e]));
  }

  /** A sort-only job on well-formed memory writes the sorted range back. */
  lemma RunOnlySort<T(!new)>(key: T -> int, so: Sorters<T>, m: Memory<T>, alg: Algorithm, data: DataKind, sort: Range, scratch: Range)
    requires ValidSorters(key, so) && WellFormed(m, OnlySort(alg, data, sort, scratch))
    ensures Run(key, so, m, OnlySort(alg, data, sort, scratch)) == Write(m, sort, ApplySort(key, alg, so, Read(m, sort)))
  {
  }

  /** Reading [i, e) of the array. */
  lemma ReadArray<T>(m: Memory<T>, i: nat, e: nat)
    requires i <= e <= |m.a|
    ensures Fits(m, Range(ArrayA, i, e - i)) && Read(m, Range(ArrayA, i, e - i)) == m.a[i..e]
  {
  }

  /** Writing `s` into the array at `i` splices it in and leaves the other buffers alone. */
  lemma WriteArray<T>(m: Memory<T>, i: nat, s: seq<T>)
    requires i + |s| <= |m.a|
    ensures Fits(m, Range(ArrayA, i, |s|))
    ensures Write(m, Range(ArrayA, i, |s|), s) == m.(a := m.a[..i] + s + m.a[i + |s|..])
  {
  }

  /** The array after the block jobs from `i` on have sorted their blocks in place, one after another. */
  function SortBlocksFrom<T(!new)>(key: T -> int, alg: Algorithm, so: Sorters<T>, a: seq<T>, bs: nat, i: nat): (r: seq<T>)
    requires ValidSorters(key, so) && bs >= 1
    ensures |r| == |a|
    decreases |a| - i
  {
    if i >= |a| then a else SortBlocksFrom(key, alg, so, M.SortBlockAt(key, alg, so, a, i, bs), bs, i + bs)
  }

  /** Running the block jobs from `i` on sorts the blocks from `i` on and leaves the auxiliary buffer alone. */
  lemma {:induction false} BlockJobsRun<T(!new)>(key: T -> int, so: Sorters<T>, alg: Algorithm, data: DataKind,
                                                 m: Memory<T>, size: nat, bs: nat, i: nat)
    requires ValidSorters(key, so) && bs >= 1 && |m.a| == |m.aux| == size
    ensures RunAll(key, so, m, BlockJobsFrom(alg, data, size, bs, i)).0.a == SortBlocksFrom(key, alg, so, m.a, bs, i)
    decreases size - i
  {
    if i < size {
      var job := BlockJob(alg, data, i, M.Min(i + bs, size));
      var rest := BlockJobsFrom(alg, data, size, bs, i + bs);
      BlockJobsUnfold(alg, data, size, bs, i);
      BlockJobEffect(key, so, alg, data, m, i, M.Min(i + bs, size));
      RunAllCons(key, so, m, job, rest);
      BlockJobsRun(key, so, alg, data, Run(key, so, m, job), size, bs, i + bs);
    }
  }

  /** From the block state at `i`, sorting the remaining blocks in place completes the block phase. */
  lemma {:induction false} SortBlocksFromState<T(!new)>(key: T -> int, alg: Algorithm, so: Sorters<T>, a0: seq<T>,
                                                        a: seq<T>, bs: nat, i: nat)
    requires ValidSorters(key, so) && bs >= 1 && M.BlockState(key, alg, so, a0, a, i, bs)
    ensures SortBlocksFrom(key, alg, so, a, bs, i) == M.Blocks(key, alg, so, a0, bs)
    decreases |a| - i
  {
    if i >= |a| {
      assert a[..|a0|] == a;
    } else {
      M.BlockStep(key, alg, so, a0, a, i, bs);
      SortBlocksFromState(key, alg, so, a0, M.SortBlockAt(key, alg, so, a, i, bs), bs, i + bs);
    }
  }

  /**
   The block phase of merge_*: enqueue one OnlySort job per block, drain the
   queue, and acquire once per block. The array ends up holding the sorted blocks.
   */
  method QueueBlocks<T(!new)>(key: T -> int, so: Sorters<T>, alg: Algorithm, data: DataKind, m: Memory<T>, bs: nat)
    returns (m': Memory<T>, releases: nat, acquires: nat)
    requires ValidSorters(key, so) && bs >= 1 && |m.a| == |m.aux|
    ensures m'.a == M.Blocks(key, alg, so, m.a, bs) && SameShape(m, m')
    ensures releases == acquires == M.Iterations(|m.a|, bs)
  {
    var jobs := EnqueueBlockJobs(alg, data, |m.a|, bs);
    assert m.a[..0] + M.Blocks(key, alg, so, m.a[0..], bs) == M.Blocks(key, alg, so, m.a, bs) by {
      assert m.a[0..] == m.a;
    }
    BlockJobsRun(key, so, alg, data, m, |m.a|, bs, 0);
    SortBlocksFromState(key, alg, so, m.a, m.a, bs, 0);
    var ran := RunAll(key, so, m, jobs);
    m', releases := ran.0, ran.1;
    acquires := AcquireLoop(|m.a|, bs);
  }

  /** The merge jobs of one round from group boundary `i` on: one per i, i+2ec, ... below `size`. */
  function RoundJobsFrom(data: DataKind, input: Buffer, output: Buffer, size: nat, ec: nat, i: nat): seq<Job>
    requires ec >= 1
    decreases size - i
  {
    if i >= size then [] else [MergeRuns(data, input, output, i, ec, size)] + RoundJobsFrom(data, input, output, size, ec, i + 2 * ec)
  }

  lemma RoundJobsUnfold(data: DataKind, input: Buffer, output: Buffer, size: nat, ec: nat, i: nat)
    requires ec >= 1 && i < size
    ensures RoundJobsFrom(data, input, output, size, ec, i)
         == [MergeRuns(data, input, output, i, ec, size)] + RoundJobsFrom(data, input, output, size, ec, i + 2 * ec)
  {
  }

  /** One iteration of the merge enqueue loop of a round. */
  method EnqueueRoundStep(data: DataKind, input: Buffer, output: Buffer, size: nat, ec: nat, jobs: seq<Job>, i: nat, count: nat)
    returns (jobs': seq<Job>, i': nat, count': nat)
    requires ec >= 1 && i < size
    requires i == count * (2 * ec) && |jobs| == count
    requires jobs + RoundJobsFrom(data, input, output, size, ec, i) == RoundJobsFrom(data, input, output, size, ec, 0)
    ensures i' == count' * (2 * ec) && |jobs'| == count' && (count' - 1) * (2 * ec) < size && i' > i
    ensures jobs' + RoundJobsFrom(data, input, output, size, ec, i') == RoundJobsFrom(data, input, output, size, ec, 0)
  {
    var job := MergeRuns(data, input, output, i, ec, size);
    RoundJobsUnfold(data, input, output, size, ec, i);
    AppendAssoc(jobs, job, RoundJobsFrom(data, input, output, size, ec, i + 2 * ec));
    M.CountStep(count, 2 * ec);
    jobs', i', count' := jobs + [job], i + 2 * ec, count + 1;
    assert i' == count' * (2 * ec) && (count' - 1) * (2 * ec) == i;
  }

  /** The merge enqueue loop of one round: ceil(size / 2ec) jobs. */
  method EnqueueRoundJobs(data: DataKind, input: Buffer, output: Buffer, size: nat, ec: nat) returns (jobs: seq<Job>)
    requires ec >= 1
    ensures jobs == RoundJobsFrom(data, input, output, size, ec, 0)
    ensures |jobs| == M.Iterations(size, 2 * ec)
  {
    jobs := [];
    var i: nat := 0;
    var count: nat := 0;
    while i < size
      invariant i == count * (2 * ec) && |jobs| == count
      invariant count == 0 || (count - 1) * (2 * ec) < size
      invariant jobs + RoundJobsFrom(data, input, output, size, ec, i) == RoundJobsFrom(data, input, output, size, ec, 0)
    {
      jobs, i, count := EnqueueRoundStep(data, input, output, size, ec, jobs, i, count);
    }
    M.IterationsOfLoop(size, 2 * ec, count);
  }

  /** The two flat buffers the merge phase swaps between. */
  predicate Flat(b: Buffer) {
    b == ArrayA || b == AuxBuffer
  }

  lemma {:induction false} RoundJobsWellFormed<T>(m: Memory<T>, data: DataKind, input: Buffer, output: Buffer,
                                                  size: nat, ec: nat, i: nat)
    requires ec >= 1 && Flat(input) && Flat(output) && input != output && |m.a| == |m.aux| == size
    ensures forall j <- RoundJobsFrom(data, input, output, size, ec, i) :: WellFormed(m, j)
    decreases size - i
  {
    if i < size {
      RoundJobsWellFormed(m, data, input, output, size, ec, i + 2 * ec);
    }
  }

  /** A merge job replaces its output buffer by the merge of its runs and changes nothing else. */
  lemma MergeJobEffect<T(!new)>(key: T -> int, so: Sorters<T>, m: Memory<T>, job: Job)
    requires ValidSorters(key, so) && job.MergeRuns? && WellFormed(m, job)
    ensures Run(key, so, m, job) == SetBuf(m, job.output, M.MergeInto(key, Buf(m, job.input), Buf(m, job.output), job.i, job.elementCount))
  {
  }

  /** The output of a round after the merge jobs from `i` on have run one after another. */
  function RoundFrom<T>(key: T -> int, inp: seq<T>, out: seq<T>, ec: nat, i: nat): (r: seq<T>)
    requires |out| == |inp| && ec >= 1
    ensures |r| == |inp|
    decreases |inp| - i
  {
    if i >= |inp| then out else RoundFrom(key, inp, M.MergeInto(key, inp, out, i, ec), ec, i + 2 * ec)
  }

  /**
   Running the merge jobs of a round from `i` on leaves the input buffer alone
   and the output buffer holding the merges of the runs from `i` on.
   */
  lemma {:induction false} RoundJobsRun<T(!new)>(key: T -> int, so: Sorters<T>, data: DataKind, input: Buffer, output: Buffer,
                                                 m: Memory<T>, size: nat, ec: nat, i: nat)
    requires ValidSorters(key, so) && ec >= 1 && Flat(input) && Flat(output) && input != output
    requires |m.a| == |m.aux| == size
    ensures Buf(RunAll(key, so, m, RoundJobsFrom(data, input, output, size, ec, i)).0, input) == Buf(m, input)
    ensures Buf(RunAll(key, so, m, RoundJobsFrom(data, input, output, size, ec, i)).0, output)
         == RoundFrom(key, Buf(m, input), Buf(m, output), ec, i)
    decreases size - i
  {
    if i < size {
      var job := MergeRuns(data, input, output, i, ec, size);
      var rest := RoundJobsFrom(data, input, output, size, ec, i + 2 * ec);
      RoundJobsUnfold(data, input, output, size, ec, i);
      MergeJobEffect(key, so, m, job);
      RunAllCons(key, so, m, job, rest);
      RoundJobsRun(key, so, data, input, output, Run(key, so, m, job), size, ec, i + 2 * ec);
    }
  }

  /** From the round state at `i`, the remaining merge jobs complete the round. */
  lemma {:induction false} RoundFromState<T>(key: T -> int, inp: seq<T>, out: seq<T>, ec: nat, i: nat)
    requires ec >= 1 && M.RoundState(key, inp, out, i, ec)
    ensures RoundFrom(key, inp, out, ec, i) == M.Round(key, inp, ec)
    decreases |inp| - i
  {
    if i >= |inp| {
      assert out[..|inp|] == out;
    } else {
      var out' := M.MergeInto(key, inp, out, i, ec);
      M.RoundStep(key, inp, out, out', i, ec);
      RoundFromState(key, inp, out', ec, i + 2 * ec);
    }
  }

  /**
   One merge round of merge_*: enqueue the merge jobs, drain the queue, and
   acquire once per job. The output buffer ends up holding the round's result.
   */
  method QueueRound<T(!new)>(key: T -> int, so: Sorters<T>, data: DataKind, m: Memory<T>,
                            input: Buffer, output: Buffer, ec: nat)
    returns (m': Memory<T>, releases: nat, acquires: nat)
    requires ValidSorters(key, so) && ec >= 1 && Flat(input) && Flat(output) && input != output
    requires |m.a| == |m.aux|
    ensures Buf(m', output) == M.Round(key, Buf(m, input), ec) && Buf(m', input) == Buf(m, input)
    ensures SameShape(m, m')
    ensures releases == acquires == M.Iterations(|m.a|, 2 * ec)
  {
    var jobs := EnqueueRoundJobs(data, input, output, |m.a|, ec);
    var inp := Buf(m, input);
    assert M.RoundState(key, inp, Buf(m, output), 0, ec) by {
      assert inp[0..] == inp;
    }
    RoundJobsRun(key, so, data, input, output, m, |m.a|, ec, 0);
    RoundFromState(key, inp, Buf(m, output), ec, 0);
    var ran := RunAll(key, so, m, jobs);
    m', releases := ran.0, ran.1;
    acquires := AcquireLoop(|m.a|, 2 * ec);
  }

  /** One iteration of the round loop of merge_*: the rounds still to run are one fewer, from the output buffer on. */
  method MergeRoundStep<T(!new)>(key: T -> int, so: Sorters<T>, data: DataKind, m: Memory<T>,
                                 input: Buffer, output: Buffer, ec: nat)
    returns (m': Memory<T>, releases: nat, acquires: nat)
    requires ValidSorters(key, so) && ec >= 1 && Flat(input) && Flat(output) && input != output
    requires |m.a| == |m.aux| && ec < |m.a|
    ensures |m'.a| == |m'.aux| == |m.a|
    ensures M.MergeRounds(key, Buf(m', output), 2 * ec) == M.MergeRounds(key, Buf(m, input), ec)
    ensures releases == acquires
  {
    ghost var x := Buf(m, input);
    assert |x| == |m.a|;
    m', releases, acquires := QueueRound(key, so, data, m, input, output, ec);
    M.RoundPermutes(key, x, ec);
  }

  /**
   The round loop of merge_*: rounds with `in` and `out` swapping between the
   array and the auxiliary buffer while the run width doubles, then a copy back
   to the array if the last round wrote to the auxiliary buffer.
   */
  method QueueRounds<T(!new)>(key: T -> int, so: Sorters<T>, data: DataKind, m0: Memory<T>, bs: nat)
    returns (m: Memory<T>, releases: nat, acquires: nat)
    requires ValidSorters(key, so) && bs >= 1 && |m0.a| == |m0.aux|
    ensures m.a == M.MergeRounds(key, m0.a, bs)
    ensures releases == acquires
  {
    var size := |m0.a|;
    m, releases, acquires := m0, 0, 0;
    var input, output := ArrayA, AuxBuffer;
    var elementCount := bs;
    while elementCount < size
      invariant elementCount >= 1 && |m.a| == |m.aux| == size
      invariant Flat(input) && Flat(output) && input != output
      invariant M.MergeRounds(key, Buf(m, input), elementCount) == M.MergeRounds(key, m0.a, bs)
      invariant releases == acquires
      decreases size - elementCount
    {
      var r, q;
      m, r, q := MergeRoundStep(key, so, data, m, input, output, elementCount);
      releases, acquires := releases + r, acquires + q;
      input, output := output, input;
      elementCount := 2 * elementCount;
    }
    if input != ArrayA {
      m := Write(m, Range(ArrayA, 0, size), Buf(m, input));
      assert m.a == m.a[0..size];
    }
  }

  /**
   merge_*: the block phase, then the round loop. Only the first `size`
   elements of the auxiliary buffer take part.
   */
  method MergeGather<T(!new)>(key: T -> int, so: Sorters<T>, data: DataKind, alg: Algorithm,
                              a0: seq<T>, aux0: seq<T>, threads: nat)
    returns (a: seq<T>, releases: nat, acquires: nat)
    requires ValidSorters(key, so) && threads >= 1 && |aux0| >= |a0|
    ensures a == M.MergeGatherResult(key, alg, so, a0, threads)
    ensures releases == acquires
  {
    var size := |a0|;
    var bs := size / threads;
    if bs == 0 {
      bs := 1;
    }
    var m := Memory(a0, aux0[..size], []);
    var r, q;
    m, releases, acquires := QueueBlocks(key, so, alg, data, m, bs);
    m, r, q := QueueRounds(key, so, data, m, bs);
    releases, acquires := releases + r, acquires + q;
    a := m.a;
  }
}

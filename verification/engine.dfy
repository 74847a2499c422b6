/**
 The public face of the task-queue engine (DynamicSort): one entry point per
 element type, which sizes the auxiliary buffer, sorts small inputs on the
 calling thread and hands large ones to the selected gather.
 */
module Engine {
  import opened Keys
  import opened Buckets
  import M = Merging
  import TQ = TaskQueue
  import OpenMP
  import OB = ObjectBuffers

  /** The default size from which the engine sorts on the thread pool (64K elements). */
  const DefaultThreshold: nat := 64 * 1024

  /** How a large input is split among the workers; `GatherNone` leaves it unsorted. */
  datatype Gather = GatherNone | GatherBucket | GatherCounting | GatherMerge

  /** The gather every sort entry point uses when the caller names none. */
  const DefaultGather: Gather := GatherCounting

  /** The base sort every sort entry point uses when the caller names none. */
  const DefaultAlgorithm: Algorithm := AlgRadixCounting

  /** The key domain of an element type: signed for the int32 kinds, unsigned otherwise. */
  function DomainOf(k: TQ.DataKind): (d: Domain)
    ensures d == Signed <==> k.Int32? || k.IndexInt32?
  {
    match k
    case Int32 => Signed
    case IndexInt32 => Signed
    case UInt32 => Unsigned
    case IndexUInt32 => Unsigned
  }

  /** sizeof the element type: a 32-bit word, or a key word and an index word. */
  function ElementBytes(k: TQ.DataKind): (n: nat)
    ensures n == 4 <==> k.Int32? || k.UInt32?
    ensures n == 4 || n == 8
  {
    if k.Int32? || k.UInt32? then 4 else 8
  }

  /**
   An engine: the threshold `useMultithreadStartingAtCount`, the number of
   system threads the merge gather splits the input for, and the auxiliary
   buffer it keeps between calls.
   */
  datatype DynamicSort = DynamicSort(threshold: nat, threads: nat, aux: OB.ObjectBuffer)

  /** The constructor: the given threshold and an empty, owned auxiliary buffer. */
  function Create(threshold: nat, threads: nat): (e: DynamicSort)
    ensures e.threshold == threshold && e.threads == threads
    ensures OB.Owned(e.aux) && e.aux.size == 0 && e.aux.allocSize == 0
  {
    DynamicSort(threshold, threads, OB.Empty())
  }

  /**
   What a sort entry point leaves in the array: below the threshold the base
   sort alone (nothing for `AlgNone`); from the threshold on, the result of the
   selected gather (nothing for `GatherNone`).
   */
  function SortResult<T(!new)>(d: Domain, key: T -> int, so: Sorters<T>, threshold: nat, threads: nat,
                               gather: Gather, alg: Algorithm, s: seq<T>): seq<T>
    requires ValidSorters(key, so) && AllInDomain(d, key, s) && threads >= 1
  {
    if |s| < threshold then ApplySort(key, alg, so, s)
    else match gather
      case GatherNone => s
      case GatherBucket => GatherResult(d, key, alg, so, s)
      case GatherCounting => GatherResult(d, key, alg, so, s)
      case GatherMerge => M.MergeGatherResult(key, alg, so, s, threads)
  }

  /** Whether a call sorts at all: a base sort is named, and a gather when the input is large. */
  predicate Sorts(threshold: nat, gather: Gather, alg: Algorithm, size: nat) {
    alg != AlgNone && (size < threshold || gather != GatherNone)
  }

  /**
   Every call permutes the array. It is sorted exactly when a base sort is
   named and, for a large input, a gather too; a call that names neither
   leaves the array as it was.
   */
  lemma SortResultCorrect<T(!new)>(d: Domain, key: T -> int, so: Sorters<T>, threshold: nat, threads: nat,
                                   gather: Gather, alg: Algorithm, s: seq<T>)
    requires ValidSorters(key, so) && AllInDomain(d, key, s) && threads >= 1
    ensures multiset(SortResult(d, key, so, threshold, threads, gather, alg, s)) == multiset(s)
    ensures |SortResult(d, key, so, threshold, threads, gather, alg, s)| == |s|
    ensures Sorts(threshold, gather, alg, |s|) ==> SortedBy(key, SortResult(d, key, so, threshold, threads, gather, alg, s))
    ensures alg == AlgNone && |s| < threshold ==> SortResult(d, key, so, threshold, threads, gather, alg, s) == s
    ensures gather == GatherNone && |s| >= threshold ==> SortResult(d, key, so, threshold, threads, gather, alg, s) == s
  {
    if |s| < threshold {
      ApplySortSorts(key, alg, so, s);
    } else if gather == GatherMerge {
      M.MergeGatherCorrect(key, alg, so, s, threads);
    } else if gather != GatherNone {
      GatherResultIsSortedPermutation(d, key, alg, so, s);
    }
  }

  /**
   Whatever the gather and the threshold, two sorting calls on the same input
   give the same sequence of keys: elements may only differ among equal keys.
   */
  lemma SortResultsAgreeOnKeys<T(!new)>(d: Domain, key: T -> int, so: Sorters<T>, threads: nat, s: seq<T>,
                                        t1: nat, g1: Gather, a1: Algorithm, t2: nat, g2: Gather, a2: Algorithm)
    requires ValidSorters(key, so) && AllInDomain(d, key, s) && threads >= 1
    requires Sorts(t1, g1, a1, |s|) && Sorts(t2, g2, a2, |s|)
    ensures KeysOf(key, SortResult(d, key, so, t1, threads, g1, a1, s))
         == KeysOf(key, SortResult(d, key, so, t2, threads, g2, a2, s))
  {
    SortResultCorrect(d, key, so, t1, threads, g1, a1, s);
    SortResultCorrect(d, key, so, t2, threads, g2, a2, s);
    SortedPermutationsAgreeOnKeys(key, SortResult(d, key, so, t1, threads, g1, a1, s),
                                  SortResult(d, key, so, t2, threads, g2, a2, s));
  }

  /** For plain integer arrays every sorting configuration gives the very same array. */
  lemma IntSortResultsEqual(d: Domain, so: Sorters<int>, threads: nat, s: seq<int>,
                            t1: nat, g1: Gather, a1: Algorithm, t2: nat, g2: Gather, a2: Algorithm)
    requires ValidSorters(x => x, so) && AllInDomain(d, x => x, s) && threads >= 1
    requires Sorts(t1, g1, a1, |s|) && Sorts(t2, g2, a2, |s|)
    ensures SortResult(d, x => x, so, t1, threads, g1, a1, s) == SortResult(d, x => x, so, t2, threads, g2, a2, s)
  {
    SortResultCorrect(d, x => x, so, t1, threads, g1, a1, s);
    SortResultCorrect(d, x => x, so, t2, threads, g2, a2, s);
    SortedPermutationsOfIntsAreEqual(SortResult(d, x => x, so, t1, threads, g1, a1, s),
                                     SortResult(d, x => x, so, t2, threads, g2, a2, s));
  }

  /**
   sort_int32_t / sort_uint32_t / sort_IndexInt32 / sort_IndexUInt32: size
   the auxiliary buffer to `size` elements (`alloc` is what the allocator
   returns if it has to grow, `scratch` its contents viewed as elements), then
   sort below the threshold on the calling thread, or run the selected gather
   on the task queue. Every semaphore acquire is matched by a release, and the
   buffer stays owned and large enough for the input.
   */
  method Sort<T(!new)>(e: DynamicSort, key: T -> int, so: Sorters<T>, data: TQ.DataKind,
                       gather: Gather, alg: Algorithm, a0: seq<T>, scratch: seq<T>, alloc: seq<OB.uint8>)
    returns (a: seq<T>, e': DynamicSort, releases: nat, acquires: nat)
    requires ValidSorters(key, so) && AllInDomain(DomainOf(data), key, a0) && e.threads >= 1
    requires OB.Owned(e.aux) && |alloc| == |a0| * ElementBytes(data) && |scratch| == |a0|
    ensures a == SortResult(DomainOf(data), key, so, e.threshold, e.threads, gather, alg, a0)
    ensures releases == acquires
    ensures e'.threshold == e.threshold && e'.threads == e.threads
    ensures OB.Owned(e'.aux) && e'.aux.size == |a0| * ElementBytes(data) <= e'.aux.allocSize
  {
    var d := DomainOf(data);
    var bytes := |a0| * ElementBytes(data);
    OB.SetSizeKeepsOwned(e.aux, bytes, OB.DefaultAlign, alloc);
    e' := e.(aux := OB.SetSize(e.aux, bytes, OB.DefaultAlign, alloc));
    releases, acquires := 0, 0;
    if |a0| < e.threshold {
      a := ApplySort(key, alg, so, a0);
    } else {
      match gather
      case GatherNone =>
        a := a0;
      case GatherBucket =>
        a, releases, acquires := TQ.BucketGather(d, key, so, data, alg, a0, scratch);
      case GatherCounting =>
        a, releases, acquires := TQ.CountingGather(d, key, so, data, alg, a0, scratch);
      case GatherMerge =>
        a, releases, acquires := TQ.MergeGather(key, so, data, alg, a0, scratch, e.threads);
    }
  }

  /**
   The task-queue engine and the fork-join functions agree: for every input
   the bucket and counting gathers of both give the same array.
   */
  method BackendsAgree<T(!new)>(d: Domain, key: T -> int, so: Sorters<T>, data: TQ.DataKind, alg: Algorithm,
                                a0: seq<T>, scratch: seq<T>)
    returns (queueBucket: seq<T>, forkBucket: seq<T>, queueCounting: seq<T>, forkCounting: seq<T>)
    requires ValidSorters(key, so) && AllInDomain(d, key, a0) && |scratch| == |a0|
    ensures queueBucket == forkBucket == queueCounting == forkCounting
    ensures multiset(queueBucket) == multiset(a0)
  {
    var r, q;
    queueBucket, r, q := TQ.BucketGather(d, key, so, data, alg, a0, scratch);
    forkBucket := OpenMP.HybridBucket(d, key, alg, so, a0);
    queueCounting, r, q := TQ.CountingGather(d, key, so, data, alg, a0, scratch);
    var aux;
    forkCounting, aux := OpenMP.HybridCounting(d, key, alg, so, a0, scratch);
    GatherResultIsSortedPermutation(d, key, alg, so, a0);
  }

  /** The merge gathers of the two backends agree as well. */
  method MergeBackendsAgree<T(!new)>(key: T -> int, so: Sorters<T>, data: TQ.DataKind, alg: Algorithm,
                                     a0: seq<T>, scratch: seq<T>, threads: nat)
    returns (queueMerge: seq<T>, forkMerge: seq<T>)
    requires ValidSorters(key, so) && |scratch| >= |a0| && threads >= 1
    ensures queueMerge == forkMerge
    ensures multiset(queueMerge) == multiset(a0)
  {
    var r, q;
    queueMerge, r, q := TQ.MergeGather(key, so, data, alg, a0, scratch, threads);
    forkMerge := M.MergeGather(key, alg, so, a0, scratch, threads);
    M.MergeGatherCorrect(key, alg, so, a0, threads);
  }
}

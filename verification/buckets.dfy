/**
 The bucket distribution shared by the bucket and counting gathers of both
 backends: which elements land in which bucket, the per-bucket counts, the
 exclusive prefix sum that turns counts into offsets, and the stable scatter.
 */
module Buckets {
  import opened Keys

  /** The elements of `s` that land in bucket `b`, in input order. */
  function InBucket<T>(d: Domain, key: T -> int, b: nat, s: seq<T>): seq<T>
    requires AllInDomain(d, key, s)
    decreases |s|
  {
    if s == [] then []
    else
      var last := s[|s| - 1];
      InBucket(d, key, b, s[..|s| - 1]) + (if BucketIndex(d, key(last)) == b then [last] else [])
  }

  /** The 128 buckets of `s`, each in input order. */
  function BucketsOf<T>(d: Domain, key: T -> int, s: seq<T>): (r: seq<seq<T>>)
    requires AllInDomain(d, key, s)
    ensures |r| == BucketCount
  {
    seq(BucketCount, b requires 0 <= b < BucketCount => InBucket(d, key, b, s))
  }

  /** Concatenation of a sequence of runs, in order. */
  function Concat<T>(ps: seq<seq<T>>): seq<T> {
    if ps == [] then [] else Concat(ps[..|ps| - 1]) + ps[|ps| - 1]
  }

  function Sizes<T>(ps: seq<seq<T>>): (r: seq<nat>)
    ensures |r| == |ps|
  {
    seq(|ps|, b requires 0 <= b < |ps| => |ps[b]|)
  }

  /** c[0] + ... + c[j-1]. */
  function SumFirst(c: seq<nat>, j: nat): nat
    requires j <= |c|
  {
    if j == 0 then 0 else SumFirst(c, j - 1) + c[j - 1]
  }

  /** The exclusive prefix sum: entry j is the total of the entries before j. */
  function ExclusivePrefix(c: seq<nat>): (r: seq<nat>)
    ensures |r| == |c|
  {
    seq(|c|, j requires 0 <= j < |c| => SumFirst(c, j))
  }

  lemma SumFirstMonotone(c: seq<nat>, i: nat, j: nat)
    requires i <= j <= |c|
    ensures SumFirst(c, i) <= SumFirst(c, j)
    decreases j - i
  {
    if i < j {
      SumFirstMonotone(c, i, j - 1);
    }
  }

  lemma {:induction false} ConcatLength<T>(ps: seq<seq<T>>, b: nat)
    requires b <= |ps|
    ensures |Concat(ps[..b])| == SumFirst(Sizes(ps), b)
  {
    if b > 0 {
      assert ps[..b][..b - 1] == ps[..b - 1];
      ConcatLength(ps, b - 1);
    }
  }

  /** Every element of bucket `b` maps to bucket `b`. */
  lemma {:induction false} InBucketMembers<T>(d: Domain, key: T -> int, b: nat, s: seq<T>)
    requires AllInDomain(d, key, s)
    ensures AllInDomain(d, key, InBucket(d, key, b, s))
    ensures forall i :: 0 <= i < |InBucket(d, key, b, s)| ==> BucketIndex(d, key(InBucket(d, key, b, s)[i])) == b
    decreases |s|
  {
    if s != [] {
      InBucketMembers(d, key, b, s[..|s| - 1]);
    }
  }

  lemma InBucketSnoc<T>(d: Domain, key: T -> int, b: nat, s: seq<T>, x: T)
    requires AllInDomain(d, key, s) && InDomain(d, key(x))
    ensures AllInDomain(d, key, s + [x])
    ensures InBucket(d, key, b, s + [x])
         == InBucket(d, key, b, s) + (if BucketIndex(d, key(x)) == b then [x] else [])
  {
    assert (s + [x])[..|s + [x]| - 1] == s;
  }

  /** Appending `x` to run `c` adds exactly `x` to the multiset of the concatenation. */
  lemma {:induction false} ConcatExtend<T>(ps: seq<seq<T>>, c: nat, x: T)
    requires c < |ps|
    ensures multiset(Concat(ps[c := ps[c] + [x]])) == multiset(Concat(ps)) + multiset{x}
  {
    var qs := ps[c := ps[c] + [x]];
    var n := |ps| - 1;
    ConcatLast(qs);
    ConcatLast(ps);
    UpdateSplit(ps, c, ps[c] + [x]);
    if c < n {
      ConcatExtend(ps[..n], c, x);
    }
  }

  /** The concatenation ends with the last run. */
  lemma ConcatLast<T>(ps: seq<seq<T>>)
    requires |ps| > 0
    ensures Concat(ps) == Concat(ps[..|ps| - 1]) + ps[|ps| - 1]
  {
  }

  /** Updating entry `c` of a non-empty sequence, seen as its front and its last entry. */
  lemma UpdateSplit<T>(ps: seq<T>, c: nat, v: T)
    requires c < |ps|
    ensures var n := |ps| - 1;
      if c < n then ps[c := v][..n] == ps[..n][c := v] && ps[c := v][n] == ps[n]
      else ps[c := v][..n] == ps[..n] && ps[c := v][n] == v
  {
  }

  /** Distributing into buckets loses and invents nothing. */
  lemma {:induction false} BucketsArePartition<T>(d: Domain, key: T -> int, s: seq<T>)
    requires AllInDomain(d, key, s)
    ensures multiset(Concat(BucketsOf(d, key, s))) == multiset(s)
    decreases |s|
  {
    if s == [] {
      var ps := BucketsOf(d, key, s);
      assert forall b :: 0 <= b < |ps| ==> ps[b] == [];
      EmptyRunsConcat(ps);
    } else {
      var s' := s[..|s| - 1];
      var x := s[|s| - 1];
      BucketsArePartition(d, key, s');
      var c := BucketIndex(d, key(x));
      var ps := BucketsOf(d, key, s');
      assert s == s' + [x];
      forall b | 0 <= b < BucketCount
        ensures BucketsOf(d, key, s)[b] == ps[c := ps[c] + [x]][b]
      {
        InBucketSnoc(d, key, b, s', x);
      }
      assert BucketsOf(d, key, s) == ps[c := ps[c] + [x]];
      ConcatExtend(ps, c, x);
    }
  }

  lemma {:induction false} EmptyRunsConcat<T>(ps: seq<seq<T>>)
    requires forall b :: 0 <= b < |ps| ==> ps[b] == []
    ensures Concat(ps) == []
  {
    if ps != [] {
      EmptyRunsConcat(ps[..|ps| - 1]);
    }
  }

  /** Run `b` of `ps` holds only keys of bucket `base + b`. */
  ghost predicate RunsInBuckets<T>(d: Domain, key: T -> int, ps: seq<seq<T>>, base: nat) {
    forall b, i :: 0 <= b < |ps| && 0 <= i < |ps[b]| ==>
      InDomain(d, key(ps[b][i])) && BucketIndex(d, key(ps[b][i])) == base + b
  }

  /**
   Concatenating internally sorted runs of increasing bucket index gives a
   sorted sequence, because the bucket map is monotone.
   */
  lemma {:induction false} ConcatOfSortedBucketsIsSorted<T>(d: Domain, key: T -> int, ps: seq<seq<T>>)
    requires RunsInBuckets(d, key, ps, 0)
    requires forall b :: 0 <= b < |ps| ==> SortedBy(key, ps[b])
    ensures SortedBy(key, Concat(ps))
    ensures forall i :: 0 <= i < |Concat(ps)| ==>
      InDomain(d, key(Concat(ps)[i])) && BucketIndex(d, key(Concat(ps)[i])) < |ps|
  {
    if ps != [] {
      var n := |ps| - 1;
      var front := Concat(ps[..n]);
      var last := ps[n];
      assert RunsInBuckets(d, key, ps[..n], 0);
      ConcatOfSortedBucketsIsSorted(d, key, ps[..n]);
      forall i, j | 0 <= i < j < |front + last|
        ensures key((front + last)[i]) <= key((front + last)[j])
      {
        if i < |front| && j >= |front| {
          assert last[j - |front|] == (front + last)[j];
          EarlierBucketSmallerKey(d, key(front[i]), key(last[j - |front|]));
        }
      }
    }
  }

  /** Every run of `ps` sorted on its own with the selected strategy. */
  function SortEach<T(!new)>(key: T -> int, alg: Algorithm, so: Sorters<T>, ps: seq<seq<T>>): (r: seq<seq<T>>)
    requires ValidSorters(key, so)
    ensures |r| == |ps|
  {
    seq(|ps|, b requires 0 <= b < |ps| => ApplySort(key, alg, so, ps[b]))
  }

  lemma SortEachSizes<T(!new)>(key: T -> int, alg: Algorithm, so: Sorters<T>, ps: seq<seq<T>>)
    requires ValidSorters(key, so)
    ensures Sizes(SortEach(key, alg, so, ps)) == Sizes(ps)
  {
    var qs := SortEach(key, alg, so, ps);
    forall b | 0 <= b < |ps|
      ensures Sizes(qs)[b] == Sizes(ps)[b]
    {
      assert qs[b] == ApplySort(key, alg, so, ps[b]);
    }
  }

  /** The sorted buckets of `s`: what every bucket-based gather leaves in the caller's array. */
  function SortedBuckets<T(!new)>(d: Domain, key: T -> int, alg: Algorithm, so: Sorters<T>, s: seq<T>): (r: seq<seq<T>>)
    requires ValidSorters(key, so) && AllInDomain(d, key, s)
    ensures |r| == BucketCount
  {
    SortEach(key, alg, so, BucketsOf(d, key, s))
  }

  /** Every sorted run is a permutation of its bucket, and sorted unless the algorithm is `_none`. */
  lemma SortEachSorts<T(!new)>(key: T -> int, alg: Algorithm, so: Sorters<T>, ps: seq<seq<T>>)
    requires ValidSorters(key, so)
    ensures forall b :: 0 <= b < |ps| ==> multiset(SortEach(key, alg, so, ps)[b]) == multiset(ps[b])
    ensures alg != AlgNone ==> forall b :: 0 <= b < |ps| ==> SortedBy(key, SortEach(key, alg, so, ps)[b])
  {
    forall b | 0 <= b < |ps|
      ensures multiset(SortEach(key, alg, so, ps)[b]) == multiset(ps[b])
      ensures alg != AlgNone ==> SortedBy(key, SortEach(key, alg, so, ps)[b])
    {
      ApplySortSorts(key, alg, so, ps[b]);
    }
  }

  lemma SortedBucketsSizes<T(!new)>(d: Domain, key: T -> int, alg: Algorithm, so: Sorters<T>, s: seq<T>)
    requires ValidSorters(key, so) && AllInDomain(d, key, s)
    ensures Sizes(SortedBuckets(d, key, alg, so, s)) == Sizes(BucketsOf(d, key, s))
  {
    SortEachSizes(key, alg, so, BucketsOf(d, key, s));
  }

  /** The result of a bucket or counting gather: the buckets, each sorted, in bucket order. */
  function GatherResult<T(!new)>(d: Domain, key: T -> int, alg: Algorithm, so: Sorters<T>, s: seq<T>): seq<T>
    requires ValidSorters(key, so) && AllInDomain(d, key, s)
  {
    Concat(SortedBuckets(d, key, alg, so, s))
  }

  lemma {:induction false} ConcatPreservesMultiset<T>(ps: seq<seq<T>>, qs: seq<seq<T>>)
    requires |ps| == |qs|
    requires forall b :: 0 <= b < |ps| ==> multiset(ps[b]) == multiset(qs[b])
    ensures multiset(Concat(ps)) == multiset(Concat(qs))
  {
    if ps != [] {
      ConcatPreservesMultiset(ps[..|ps| - 1], qs[..|qs| - 1]);
    }
  }

  /**
   A bucket-based gather returns a permutation of its input, sorted whenever a
   base sort is selected; with `AlgNone` it only partitions the input into buckets.
   */
  lemma GatherResultIsSortedPermutation<T(!new)>(d: Domain, key: T -> int, alg: Algorithm, so: Sorters<T>, s: seq<T>)
    requires ValidSorters(key, so) && AllInDomain(d, key, s)
    ensures multiset(GatherResult(d, key, alg, so, s)) == multiset(s)
    ensures |GatherResult(d, key, alg, so, s)| == |s|
    ensures alg != AlgNone ==> SortedBy(key, GatherResult(d, key, alg, so, s))
    ensures alg == AlgNone ==> GatherResult(d, key, alg, so, s) == Concat(BucketsOf(d, key, s))
  {
    var bs := BucketsOf(d, key, s);
    var ps := SortedBuckets(d, key, alg, so, s);
    SortEachSorts(key, alg, so, bs);
    ConcatPreservesMultiset(ps, bs);
    BucketsArePartition(d, key, s);
    assert |multiset(Concat(ps))| == |multiset(s)|;
    if alg != AlgNone {
      forall b, i | 0 <= b < |ps| && 0 <= i < |ps[b]|
        ensures InDomain(d, key(ps[b][i])) && BucketIndex(d, key(ps[b][i])) == b
      {
        InBucketMembers(d, key, b, s);
        MultisetInDomain(d, key, bs[b], ps[b]);
        assert ps[b][i] in multiset(bs[b]);
        assert ps[b][i] in bs[b];
      }
      ConcatOfSortedBucketsIsSorted(d, key, ps);
    } else {
      assert ps == bs;
    }
  }

  /**
   The forward scan of the bucket gather: each element is appended to the list
   of its bucket, so each list is the bucket in input order.
   */
  method GatherIntoLists<T>(d: Domain, key: T -> int, a: seq<T>) returns (lists: seq<seq<T>>)
    requires AllInDomain(d, key, a)
    ensures lists == BucketsOf(d, key, a)
  {
    lists := seq(BucketCount, b => []);
    var i := 0;
    while i < |a|
      invariant 0 <= i <= |a|
      invariant |lists| == BucketCount
      invariant forall b :: 0 <= b < BucketCount ==> lists[b] == InBucket(d, key, b, a[..i])
    {
      var index := BucketIndex(d, key(a[i]));
      forall b | 0 <= b < BucketCount
        ensures InBucket(d, key, b, a[..i + 1])
             == InBucket(d, key, b, a[..i]) + (if index == b then [a[i]] else [])
      {
        assert a[..i + 1] == a[..i] + [a[i]];
        InBucketSnoc(d, key, b, a[..i], a[i]);
      }
      lists := lists[index := lists[index] + [a[i]]];
      i := i + 1;
    }
    assert a[..i] == a;
  }

  /** The offset loop of the bucket gather: a_offset[i] is the total size of the lists before i. */
  method ListOffsets<T>(lists: seq<seq<T>>) returns (offsets: seq<nat>)
    ensures offsets == ExclusivePrefix(Sizes(lists))
  {
    offsets := [];
    var offset := 0;
    var i := 0;
    while i < |lists|
      invariant 0 <= i <= |lists|
      invariant offsets == ExclusivePrefix(Sizes(lists))[..i]
      invariant offset == SumFirst(Sizes(lists), i)
    {
      offsets := offsets + [offset];
      offset := offset + |lists[i]|;
      i := i + 1;
    }
  }

  /** The count pass of the counting gather. */
  method CountBuckets<T>(d: Domain, key: T -> int, a: seq<T>) returns (counting: seq<nat>)
    requires AllInDomain(d, key, a)
    ensures counting == Sizes(BucketsOf(d, key, a))
  {
    counting := seq(BucketCount, b => 0);
    var i := 0;
    while i < |a|
      invariant 0 <= i <= |a|
      invariant |counting| == BucketCount
      invariant forall b :: 0 <= b < BucketCount ==> counting[b] == |InBucket(d, key, b, a[..i])|
    {
      var index := BucketIndex(d, key(a[i]));
      forall b | 0 <= b < BucketCount
        ensures InBucket(d, key, b, a[..i + 1])
             == InBucket(d, key, b, a[..i]) + (if index == b then [a[i]] else [])
      {
        assert a[..i + 1] == a[..i] + [a[i]];
        InBucketSnoc(d, key, b, a[..i], a[i]);
      }
      counting := counting[index := counting[index] + 1];
      i := i + 1;
    }
    assert a[..i] == a;
  }

  /**
   The in-place exclusive prefix sum of the counting gather: the first entry
   becomes 0 and each later entry the running total of the counts before it.
   */
  method PrefixSumInPlace(c: seq<nat>) returns (counting: seq<nat>)
    requires |c| > 0
    ensures counting == ExclusivePrefix(c)
  {
    counting := c;
    var acc := counting[0];
    counting := counting[0 := 0];
    var j := 1;
    while j < |c|
      invariant 1 <= j <= |c|
      invariant |counting| == |c|
      invariant acc == SumFirst(c, j)
      invariant forall k :: 0 <= k < j ==> counting[k] == SumFirst(c, k)
      invariant forall k :: j <= k < |c| ==> counting[k] == c[k]
    {
      var tmp := counting[j];
      counting := counting[j := acc];
      acc := acc + tmp;
      j := j + 1;
    }
  }

  /** A prefix of the input never has more elements in a bucket than the whole input. */
  lemma {:induction false} InBucketPrefixLength<T>(d: Domain, key: T -> int, b: nat, a: seq<T>, i: nat)
    requires AllInDomain(d, key, a) && i < |a| && BucketIndex(d, key(a[i])) == b
    ensures |InBucket(d, key, b, a[..i])| < |InBucket(d, key, b, a)|
    decreases |a| - i
  {
    assert a[..i + 1] == a[..i] + [a[i]];
    InBucketSnoc(d, key, b, a[..i], a[i]);
    InBucketGrows(d, key, b, a, i + 1);
  }

  lemma {:induction false} InBucketGrows<T>(d: Domain, key: T -> int, b: nat, a: seq<T>, i: nat)
    requires AllInDomain(d, key, a) && i <= |a|
    ensures |InBucket(d, key, b, a[..i])| <= |InBucket(d, key, b, a)|
    decreases |a| - i
  {
    if i < |a| {
      assert a[..i + 1] == a[..i] + [a[i]];
      InBucketSnoc(d, key, b, a[..i], a[i]);
      InBucketGrows(d, key, b, a, i + 1);
    } else {
      assert a[..i] == a;
    }
  }

  /** The bucket sizes of `a` add up to |a|. */
  lemma BucketSizesTotal<T>(d: Domain, key: T -> int, a: seq<T>)
    requires AllInDomain(d, key, a)
    ensures SumFirst(Sizes(BucketsOf(d, key, a)), BucketCount) == |a|
  {
    var bs := BucketsOf(d, key, a);
    ConcatLength(bs, BucketCount);
    assert bs[..BucketCount] == bs;
    BucketsArePartition(d, key, a);
    assert |multiset(Concat(bs))| == |multiset(a)|;
  }

  /**
   `run` sits in `x` at the start of slot `b` of the layout whose slot sizes are
   `sz`, and fits in that slot.
   */
  ghost predicate SlotHolds<T>(x: seq<T>, sz: seq<nat>, b: nat, run: seq<T>)
    requires b < |sz|
  {
    SumFirst(sz, b) + |run| <= SumFirst(sz, b + 1) <= |x| &&
    x[SumFirst(sz, b)..SumFirst(sz, b) + |run|] == run
  }

  /**
   If every run of `ps` fills its slot of `x`, then `x` starts with the
   concatenation of the runs.
   */
  lemma {:induction false} SlicesGiveConcat<T>(x: seq<T>, ps: seq<seq<T>>, n: nat)
    requires n <= |ps|
    requires forall b :: 0 <= b < n ==> SlotHolds(x, Sizes(ps), b, ps[b])
    ensures SumFirst(Sizes(ps), n) <= |x|
    ensures x[..SumFirst(Sizes(ps), n)] == Concat(ps[..n])
  {
    if n > 0 {
      var sz := Sizes(ps);
      assert SlotHolds(x, sz, n - 1, ps[n - 1]);
      SlicesGiveConcat(x, ps, n - 1);
      var lo, run := SumFirst(sz, n - 1), ps[n - 1];
      var hi := lo + |run|;
      assert hi == SumFirst(sz, n) by {
        assert sz[n - 1] == |run|;
      }
      SliceStep(x, Concat(ps[..n - 1]), run, lo, hi);
      ConcatSnoc(ps, n);
    }
  }

  /** The runs up to `n` are the runs up to n-1 followed by run n-1. */
  lemma ConcatSnoc<T>(ps: seq<seq<T>>, n: nat)
    requires 0 < n <= |ps|
    ensures Concat(ps[..n]) == Concat(ps[..n - 1]) + ps[n - 1]
  {
    assert ps[..n][..n - 1] == ps[..n - 1];
  }

  /** A prefix of `x` followed by the slice after it is a longer prefix. */
  lemma SliceStep<T>(x: seq<T>, pre: seq<T>, run: seq<T>, lo: nat, hi: nat)
    requires lo + |run| == hi <= |x| && x[..lo] == pre && x[lo..hi] == run
    ensures x[..hi] == pre + run
  {
    PrefixSplit(x, lo, hi);
  }

  lemma PrefixSplit<T>(x: seq<T>, lo: nat, hi: nat)
    requires lo <= hi <= |x|
    ensures x[..hi] == x[..lo] + x[lo..hi]
  {
  }

  /** Writing outside slot `b` leaves the slot's content alone. */
  lemma SlotUnaffected<T>(x: seq<T>, sz: seq<nat>, b: nat, run: seq<T>, p: nat, v: T)
    requires b < |sz| && SlotHolds(x, sz, b, run) && p < |x|
    requires p < SumFirst(sz, b) || SumFirst(sz, b + 1) <= p
    ensures SlotHolds(x[p := v], sz, b, run)
  {
    var lo := SumFirst(sz, b);
    assert x[p := v][lo..lo + |run|] == x[lo..lo + |run|];
  }

  /** Writing just past the content of a slot that still has room appends to that content. */
  lemma SlotAppend<T>(x: seq<T>, sz: seq<nat>, b: nat, run: seq<T>, v: T)
    requires b < |sz| && SlotHolds(x, sz, b, run)
    requires SumFirst(sz, b) + |run| < SumFirst(sz, b + 1)
    ensures SlotHolds(x[SumFirst(sz, b) + |run| := v], sz, b, run + [v])
  {
    var lo := SumFirst(sz, b);
    assert x[lo + |run| := v][lo..lo + |run| + 1] == x[lo..lo + |run|] + [v];
  }

  /** Slot `b` of `aux` starts with `runs[b]`, and `cursor[b]` points just past it. */
  ghost predicate ScatterState<T>(sz: seq<nat>, aux: seq<T>, cursor: seq<nat>, runs: seq<seq<T>>) {
    |cursor| == |runs| == |sz| &&
    forall b :: 0 <= b < |sz| ==>
      cursor[b] == SumFirst(sz, b) + |runs[b]| && SlotHolds(aux, sz, b, runs[b])
  }

  /** Writing `v` at the cursor of a slot with room left, and advancing that cursor, appends `v` to that run only. */
  lemma ScatterStep<T>(sz: seq<nat>, aux: seq<T>, cursor: seq<nat>, runs: seq<seq<T>>, c: nat, v: T)
    requires ScatterState(sz, aux, cursor, runs)
    requires c < |sz| && |runs[c]| < sz[c]
    ensures cursor[c] < |aux|
    ensures ScatterState(sz, aux[cursor[c] := v], cursor[c := cursor[c] + 1], runs[c := runs[c] + [v]])
  {
    var p := cursor[c];
    var aux', cursor', runs' := aux[p := v], cursor[c := p + 1], runs[c := runs[c] + [v]];
    forall b | 0 <= b < |sz|
      ensures cursor'[b] == SumFirst(sz, b) + |runs'[b]| && SlotHolds(aux', sz, b, runs'[b])
    {
      if b == c {
        SlotAppend(aux, sz, b, runs[b], v);
      } else {
        if b < c {
          SumFirstMonotone(sz, b + 1, c);
        } else {
          SumFirstMonotone(sz, c + 1, b);
        }
        SlotUnaffected(aux, sz, b, runs[b], p, v);
      }
    }
  }

  /** Scanning one more element appends it to its own bucket and to no other. */
  lemma BucketsOfStep<T>(d: Domain, key: T -> int, a: seq<T>, i: nat)
    requires AllInDomain(d, key, a) && i < |a|
    ensures var runs, c := BucketsOf(d, key, a[..i]), BucketIndex(d, key(a[i]));
      BucketsOf(d, key, a[..i + 1]) == runs[c := runs[c] + [a[i]]]
  {
    var runs, c := BucketsOf(d, key, a[..i]), BucketIndex(d, key(a[i]));
    assert a[..i + 1] == a[..i] + [a[i]];
    var next, runs' := BucketsOf(d, key, a[..i + 1]), runs[c := runs[c] + [a[i]]];
    forall b | 0 <= b < BucketCount
      ensures next[b] == runs'[b]
    {
      InBucketSnoc(d, key, b, a[..i], a[i]);
    }
  }

  /** Scattering a[i] keeps the state in step with the buckets of the scanned prefix. */
  lemma ScatterScanStep<T>(d: Domain, key: T -> int, a: seq<T>, i: nat, aux: seq<T>, cursor: seq<nat>)
    requires AllInDomain(d, key, a) && i < |a| <= |aux|
    requires ScatterState(Sizes(BucketsOf(d, key, a)), aux, cursor, BucketsOf(d, key, a[..i]))
    ensures cursor[BucketIndex(d, key(a[i]))] < |a|
    ensures ScatterState(Sizes(BucketsOf(d, key, a)),
      aux[cursor[BucketIndex(d, key(a[i]))] := a[i]],
      cursor[BucketIndex(d, key(a[i])) := cursor[BucketIndex(d, key(a[i]))] + 1],
      BucketsOf(d, key, a[..i + 1]))
  {
    var sz := Sizes(BucketsOf(d, key, a));
    var c := BucketIndex(d, key(a[i]));
    var runs := BucketsOf(d, key, a[..i]);
    BucketsOfStep(d, key, a, i);
    InBucketPrefixLength(d, key, c, a, i);
    ScatterStep(sz, aux, cursor, runs, c, a[i]);
    SumFirstMonotone(sz, c + 1, BucketCount);
    BucketSizesTotal(d, key, a);
    assert SlotHolds(aux, sz, c, runs[c]);
  }

  /** Before the scan every slot is empty and every cursor is at its slot's start. */
  lemma ScatterInit<T>(d: Domain, key: T -> int, a: seq<T>, aux: seq<T>)
    requires AllInDomain(d, key, a) && |aux| >= |a|
    ensures ScatterState(Sizes(BucketsOf(d, key, a)), aux, ExclusivePrefix(Sizes(BucketsOf(d, key, a))), BucketsOf(d, key, a[..0]))
  {
    var sz := Sizes(BucketsOf(d, key, a));
    BucketSizesTotal(d, key, a);
    forall b | 0 <= b < BucketCount
      ensures SlotHolds(aux, sz, b, BucketsOf(d, key, a[..0])[b])
    {
      SumFirstMonotone(sz, b + 1, BucketCount);
    }
  }

  /** After the scan every slot is full, so the buffer starts with the concatenated buckets. */
  lemma ScatterDone<T>(d: Domain, key: T -> int, a: seq<T>, aux: seq<T>, cursor: seq<nat>)
    requires AllInDomain(d, key, a)
    requires ScatterState(Sizes(BucketsOf(d, key, a)), aux, cursor, BucketsOf(d, key, a[..|a|]))
    ensures |a| <= |aux| && aux[..|a|] == Concat(BucketsOf(d, key, a))
  {
    var bs := BucketsOf(d, key, a);
    assert a[..|a|] == a;
    SlicesGiveConcat(aux, bs, BucketCount);
    BucketSizesTotal(d, key, a);
    assert bs[..BucketCount] == bs;
  }

  /**
   The stable scatter of the counting gather: each element goes to the next free
   slot of its bucket, and the cursor of a bucket ends at the start of the next.
   Afterwards the scratch buffer holds the buckets, each in input order.
   */
  method Scatter<T>(d: Domain, key: T -> int, a: seq<T>, aux0: seq<T>, offset: seq<nat>)
    returns (aux: seq<T>, cursor: seq<nat>)
    requires AllInDomain(d, key, a) && |aux0| >= |a|
    requires offset == ExclusivePrefix(Sizes(BucketsOf(d, key, a)))
    ensures |aux| == |aux0| && aux[|a|..] == aux0[|a|..]
    ensures aux[..|a|] == Concat(BucketsOf(d, key, a))
    ensures forall b :: 0 <= b < BucketCount ==> SlotHolds(aux, Sizes(BucketsOf(d, key, a)), b, BucketsOf(d, key, a)[b])
    ensures |cursor| == BucketCount
    ensures forall b :: 0 <= b < BucketCount ==> cursor[b] == offset[b] + |BucketsOf(d, key, a)[b]|
  {
    ghost var sz := Sizes(BucketsOf(d, key, a));
    aux := aux0;
    cursor := offset;
    ScatterInit(d, key, a, aux);
    var i := 0;
    while i < |a|
      invariant 0 <= i <= |a|
      invariant |aux| == |aux0| && aux[|a|..] == aux0[|a|..]
      invariant ScatterState(sz, aux, cursor, BucketsOf(d, key, a[..i]))
    {
      aux, cursor := ScatterOne(d, key, a, aux0, i, aux, cursor);
      i := i + 1;
    }
    ScatterDone(d, key, a, aux, cursor);
    assert a[..i] == a;
  }

  /** One iteration of the scatter loop: a[i] goes to its bucket's cursor, which advances. */
  method ScatterOne<T>(d: Domain, key: T -> int, a: seq<T>, aux0: seq<T>, i: nat, aux: seq<T>, cursor: seq<nat>)
    returns (aux': seq<T>, cursor': seq<nat>)
    requires AllInDomain(d, key, a) && i < |a| <= |aux0|
    requires |aux| == |aux0| && aux[|a|..] == aux0[|a|..]
    requires ScatterState(Sizes(BucketsOf(d, key, a)), aux, cursor, BucketsOf(d, key, a[..i]))
    ensures |aux'| == |aux0| && aux'[|a|..] == aux0[|a|..]
    ensures ScatterState(Sizes(BucketsOf(d, key, a)), aux', cursor', BucketsOf(d, key, a[..i + 1]))
  {
    var c := BucketIndex(d, key(a[i]));
    ScatterScanStep(d, key, a, i, aux, cursor);
    aux' := aux[cursor[c] := a[i]];
    cursor' := cursor[c := cursor[c] + 1];
    assert aux'[|a|..] == aux[|a|..];
  }
  /**
   Copying run `b` of `ps` to its offset extends the prefix of `x` that already
   holds the runs before `b` by that run.
   */
  lemma WriteRun<T>(x: seq<T>, ps: seq<seq<T>>, b: nat)
    requires b < |ps| && SumFirst(Sizes(ps), |ps|) <= |x|
    requires Concat(ps[..b]) <= x
    ensures SumFirst(Sizes(ps), b) + |ps[b]| == SumFirst(Sizes(ps), b + 1) <= |x|
    ensures Concat(ps[..b + 1]) <= Splice(x, SumFirst(Sizes(ps), b), ps[b])
  {
    var sz := Sizes(ps);
    SumFirstMonotone(sz, b + 1, |ps|);
    ConcatLength(ps, b);
    var lo := SumFirst(sz, b);
    var y := Splice(x, lo, ps[b]);
    assert ps[..b + 1][..b] == ps[..b];
    assert Concat(ps[..b + 1]) == Concat(ps[..b]) + ps[b];
    assert y[..lo + |ps[b]|] == y[..lo] + y[lo..lo + |ps[b]|];
  }

  /** Copying into a range that ends before slot `b` leaves that slot's content alone. */
  lemma SpliceKeepsLaterSlot<T>(x: seq<T>, sz: seq<nat>, b: nat, run: seq<T>, lo: nat, r: seq<T>)
    requires b < |sz| && SlotHolds(x, sz, b, run) && lo + |r| <= SumFirst(sz, b)
    ensures SlotHolds(Splice(x, lo, r), sz, b, run)
  {
    var y, p := Splice(x, lo, r), SumFirst(sz, b);
    assert y[p..p + |run|] == y[lo + |r|..][p - lo - |r|..p - lo - |r| + |run|];
  }

  /** The slots of `x` laid out by the sizes of `ps` hold the runs of `ps` from slot `i` on. */
  ghost predicate SlotsFrom<T>(x: seq<T>, sz: seq<nat>, ps: seq<seq<T>>, i: nat)
    requires |sz| == |ps|
  {
    forall b {:trigger SlotHolds(x, sz, b, ps[b])} :: i <= b < |ps| ==> SlotHolds(x, sz, b, ps[b])
  }

  /** Copying a run of at most slot `i`'s size to its start leaves the later slots alone. */
  /** Copying a run of slot `i`'s size to its start also leaves everything from `lim` on, past all slots, unchanged. */
  lemma SpliceSlot<T>(x: seq<T>, sz: seq<nat>, bs: seq<seq<T>>, i: nat, run: seq<T>, lim: nat)
    requires |sz| == |bs| && i < |bs| && SlotsFrom(x, sz, bs, i) && |run| == sz[i]
    requires SumFirst(sz, |bs|) <= lim <= |x|
    ensures SumFirst(sz, i) + |run| <= lim
    ensures SlotsFrom(Splice(x, SumFirst(sz, i), run), sz, bs, i + 1)
    ensures Splice(x, SumFirst(sz, i), run)[lim..] == x[lim..]
  {
    LaterSlotsKept(x, sz, bs, i, run);
    SumFirstMonotone(sz, i + 1, |bs|);
    SpliceTail(x, SumFirst(sz, i), run, lim);
  }

  lemma LaterSlotsKept<T>(x: seq<T>, sz: seq<nat>, bs: seq<seq<T>>, i: nat, run: seq<T>)
    requires |sz| == |bs| && i < |bs| && SlotsFrom(x, sz, bs, i) && |run| == sz[i]
    ensures SumFirst(sz, i) + |run| <= |x|
    ensures SlotsFrom(Splice(x, SumFirst(sz, i), run), sz, bs, i + 1)
  {
    assert SlotHolds(x, sz, i, bs[i]);
    var y := Splice(x, SumFirst(sz, i), run);
    forall b | i + 1 <= b < |bs|
      ensures SlotHolds(y, sz, b, bs[b])
    {
      SumFirstMonotone(sz, i + 1, b);
      assert SlotHolds(x, sz, b, bs[b]);
      SpliceKeepsLaterSlot(x, sz, b, bs[b], SumFirst(sz, i), run);
    }
  }

}

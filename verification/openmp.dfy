/**
 The fork-join backend (`hybrid_*_OpenMP`). Each `parallel for` runs work items
 whose index ranges are disjoint, so it is modelled as the sequential loop over
 the same items in index order. The merge gather of this backend is
 `Merging.MergeGather`.
 */
module OpenMP {
  import opened Keys
  import opened Buckets

  /**
   The copy loop of the bucket gather: every non-empty list is sorted and copied
   to its offset, the total size of the lists before it.
   */
  method CopySortedLists<T(!new)>(key: T -> int, alg: Algorithm, so: Sorters<T>, lists: seq<seq<T>>,
                                  aOffset: seq<nat>, a0: seq<T>)
    returns (a: seq<T>)
    requires ValidSorters(key, so)
    requires aOffset == ExclusivePrefix(Sizes(lists)) && SumFirst(Sizes(lists), |lists|) == |a0|
    ensures a == Concat(SortEach(key, alg, so, lists))
  {
    ghost var ps := SortEach(key, alg, so, lists);
    SortEachSizes(key, alg, so, lists);
    a := a0;
    var i: nat := 0;
    while i < |lists|
      invariant i <= |lists| && |a| == |a0|
      invariant Concat(ps[..i]) <= a
    {
      a := CopyList(key, alg, so, lists, a, i, aOffset[i]);
      i := i + 1;
    }
    ConcatLength(ps, |ps|);
    assert ps[..|ps|] == ps;
  }

  /** One iteration of the copy loop: list `i`, if non-empty, sorted and copied to `offset`. */
  method CopyList<T(!new)>(key: T -> int, alg: Algorithm, so: Sorters<T>, lists: seq<seq<T>>, a: seq<T>, i: nat, offset: nat)
    returns (a': seq<T>)
    requires ValidSorters(key, so) && i < |lists| && SumFirst(Sizes(lists), |lists|) == |a|
    requires offset == SumFirst(Sizes(lists), i) && Concat(SortEach(key, alg, so, lists)[..i]) <= a
    ensures |a'| == |a| && Concat(SortEach(key, alg, so, lists)[..i + 1]) <= a'
  {
    ghost var ps := SortEach(key, alg, so, lists);
    SortEachSizes(key, alg, so, lists);
    assert ps[i] == ApplySort(key, alg, so, lists[i]);
    WriteRun(a, ps, i);
    var bucket := lists[i];
    if |bucket| != 0 {
      bucket := ApplySort(key, alg, so, bucket);
      a' := Splice(a, offset, bucket);
    } else {
      a' := a;
      assert Splice(a, offset, ps[i]) == a;
    }
  }

  /**
   hybrid_bucket_*: scan the input into per-bucket lists, compute the list
   offsets, then sort and copy back. The radix variants sort each list with a
   scratch range and end the same way.
   */
  method HybridBucket<T(!new)>(d: Domain, key: T -> int, alg: Algorithm, so: Sorters<T>, a0: seq<T>)
    returns (a: seq<T>)
    requires ValidSorters(key, so) && AllInDomain(d, key, a0)
    ensures a == GatherResult(d, key, alg, so, a0)
  {
    var lists := GatherIntoLists(d, key, a0);
    var aOffset := ListOffsets(lists);
    BucketSizesTotal(d, key, a0);
    a := CopySortedLists(key, alg, so, lists, aOffset, a0);
  }

  /**
   The copy-back loop of the counting gather: every non-empty range
   aux[offset[i], counting[i]) is sorted in place and copied to the same range
   of the array.
   */
  method SortSlotsAndCopy<T(!new)>(key: T -> int, alg: Algorithm, so: Sorters<T>, bs: seq<seq<T>>,
                                   offset: seq<nat>, counting: seq<nat>, a0: seq<T>, aux0: seq<T>)
    returns (a: seq<T>, aux: seq<T>)
    requires ValidSorters(key, so)
    requires offset == ExclusivePrefix(Sizes(bs)) && |counting| == |bs|
    requires forall b :: 0 <= b < |bs| ==> counting[b] == offset[b] + |bs[b]|
    requires SumFirst(Sizes(bs), |bs|) == |a0| <= |aux0|
    requires SlotsFrom(aux0, Sizes(bs), bs, 0)
    ensures a == Concat(SortEach(key, alg, so, bs))
    ensures |aux| == |aux0| && aux[|a0|..] == aux0[|a0|..]
  {
    ghost var ps := SortEach(key, alg, so, bs);
    ghost var sz := Sizes(bs);
    SortEachSizes(key, alg, so, bs);
    a, aux := a0, aux0;
    var i: nat := 0;
    while i < |bs|
      invariant i <= |bs| && |a| == |a0| && |aux| == |aux0| && aux[|a0|..] == aux0[|a0|..]
      invariant Concat(ps[..i]) <= a && SlotsFrom(aux, Sizes(bs), bs, i)
    {
      assert offset[i] == SumFirst(Sizes(bs), i) && counting[i] == offset[i] + |bs[i]|;
      a, aux := CopySlot(key, alg, so, bs, a, aux, i, offset[i], counting[i]);
      i := i + 1;
    }
    ConcatLength(ps, |ps|);
    assert ps[..|ps|] == ps;
  }

  /** One iteration of the copy-back loop, on bucket `i`'s range [lo, hi) of both buffers. */
  method CopySlot<T(!new)>(key: T -> int, alg: Algorithm, so: Sorters<T>, bs: seq<seq<T>>,
                           a: seq<T>, aux: seq<T>, i: nat, lo: nat, hi: nat)
    returns (a': seq<T>, aux': seq<T>)
    requires ValidSorters(key, so) && i < |bs| && SumFirst(Sizes(bs), |bs|) == |a| <= |aux|
    requires lo == SumFirst(Sizes(bs), i) && hi == lo + |bs[i]|
    requires Concat(SortEach(key, alg, so, bs)[..i]) <= a && SlotsFrom(aux, Sizes(bs), bs, i)
    ensures |a'| == |a| && |aux'| == |aux| && aux'[|a|..] == aux[|a|..]
    ensures Concat(SortEach(key, alg, so, bs)[..i + 1]) <= a' && SlotsFrom(aux', Sizes(bs), bs, i + 1)
  {
    assert hi == SumFirst(Sizes(bs), i + 1);
    SumFirstMonotone(Sizes(bs), i + 1, |bs|);
    if hi - lo != 0 {
      var run := ApplySort(key, alg, so, aux[lo..hi]);
      aux' := Splice(aux, lo, run);
      a' := Splice(a, lo, aux'[lo..hi]);
      FilledSlot(key, alg, so, bs, a, aux, |a|, i, lo, hi, a', aux');
    } else {
      a', aux' := a, aux;
      EmptySlot(key, alg, so, bs, a, aux, i);
    }
  }

  /** A non-empty iteration: sort the slot in the scratch buffer, then copy it to the array. */
  lemma FilledSlot<T(!new)>(key: T -> int, alg: Algorithm, so: Sorters<T>, bs: seq<seq<T>>, a: seq<T>, aux: seq<T>,
                            lim: nat, i: nat, lo: nat, hi: nat, a': seq<T>, aux': seq<T>)
    requires ValidSorters(key, so) && i < |bs| && SumFirst(Sizes(bs), |bs|) == lim == |a| <= |aux|
    requires Concat(SortEach(key, alg, so, bs)[..i]) <= a && SlotsFrom(aux, Sizes(bs), bs, i)
    requires lo == SumFirst(Sizes(bs), i) && hi == lo + |bs[i]| <= lim
    requires aux' == Splice(aux, lo, ApplySort(key, alg, so, aux[lo..hi])) && a' == Splice(a, lo, aux'[lo..hi])
    ensures |a'| == |a| && |aux'| == |aux| && aux'[lim..] == aux[lim..]
    ensures Concat(SortEach(key, alg, so, bs)[..i + 1]) <= a' && SlotsFrom(aux', Sizes(bs), bs, i + 1)
  {
    SortedSlot(key, alg, so, bs, aux, lim, i, lo, hi, ApplySort(key, alg, so, aux[lo..hi]), aux');
    CopiedSlot(key, alg, so, bs, a, i, aux'[lo..hi], a');
  }

  /** The sort half of one copy-back iteration: slot `i` now holds its bucket sorted. */
  lemma SortedSlot<T(!new)>(key: T -> int, alg: Algorithm, so: Sorters<T>, bs: seq<seq<T>>, aux: seq<T>, lim: nat, i: nat,
                            lo: nat, hi: nat, run: seq<T>, aux': seq<T>)
    requires ValidSorters(key, so) && i < |bs| && SumFirst(Sizes(bs), |bs|) <= lim <= |aux|
    requires SlotsFrom(aux, Sizes(bs), bs, i)
    requires lo == SumFirst(Sizes(bs), i) && hi == lo + |bs[i]| <= |aux|
    requires run == ApplySort(key, alg, so, aux[lo..hi]) && aux' == Splice(aux, lo, run)
    ensures |aux'| == |aux| && aux'[lim..] == aux[lim..] && SlotsFrom(aux', Sizes(bs), bs, i + 1)
    ensures aux'[lo..hi] == SortEach(key, alg, so, bs)[i]
  {
    var sz := Sizes(bs);
    assert SlotHolds(aux, sz, i, bs[i]);
    assert aux[lo..hi] == bs[i];
    assert run == SortEach(key, alg, so, bs)[i];
    SpliceSlot(aux, sz, bs, i, run, lim);
  }

  /** The copy half of one copy-back iteration: the array now holds the sorted buckets up to `i`. */
  lemma CopiedSlot<T(!new)>(key: T -> int, alg: Algorithm, so: Sorters<T>, bs: seq<seq<T>>, a: seq<T>, i: nat,
                            run: seq<T>, a': seq<T>)
    requires ValidSorters(key, so) && i < |bs| && SumFirst(Sizes(bs), |bs|) <= |a|
    requires Concat(SortEach(key, alg, so, bs)[..i]) <= a
    requires run == SortEach(key, alg, so, bs)[i]
    requires SumFirst(Sizes(bs), i) + |run| <= |a| && a' == Splice(a, SumFirst(Sizes(bs), i), run)
    ensures |a'| == |a| && Concat(SortEach(key, alg, so, bs)[..i + 1]) <= a'
  {
    SortEachSizes(key, alg, so, bs);
    WriteRun(a, SortEach(key, alg, so, bs), i);
  }

  /** An iteration over an empty bucket changes nothing. */
  lemma EmptySlot<T(!new)>(key: T -> int, alg: Algorithm, so: Sorters<T>, bs: seq<seq<T>>, a: seq<T>, aux: seq<T>, i: nat)
    requires ValidSorters(key, so) && i < |bs| && |bs[i]| == 0 && SumFirst(Sizes(bs), |bs|) <= |a|
    requires Concat(SortEach(key, alg, so, bs)[..i]) <= a && SlotsFrom(aux, Sizes(bs), bs, i)
    ensures Concat(SortEach(key, alg, so, bs)[..i + 1]) <= a && SlotsFrom(aux, Sizes(bs), bs, i + 1)
  {
    var ps := SortEach(key, alg, so, bs);
    SortEachSizes(key, alg, so, bs);
    assert ps[i] == ApplySort(key, alg, so, bs[i]) == [];
    WriteRun(a, ps, i);
    assert Splice(a, SumFirst(Sizes(ps), i), ps[i]) == a;
  }

  /**
   hybrid_counting_*: count, prefix-sum, snapshot the offsets, scatter stably
   into `aux0` (the caller's scratch buffer, or a fresh one of `size`
   elements), then sort and copy back each bucket's range. The radix variants
   use the array's range as sorting scratch; the copy then overwrites it.
   */
  method HybridCounting<T(!new)>(d: Domain, key: T -> int, alg: Algorithm, so: Sorters<T>, a0: seq<T>, aux0: seq<T>)
    returns (a: seq<T>, aux: seq<T>)
    requires ValidSorters(key, so) && AllInDomain(d, key, a0) && |aux0| >= |a0|
    ensures a == GatherResult(d, key, alg, so, a0)
    ensures |aux| == |aux0| && aux[|a0|..] == aux0[|a0|..]
  {
    var counting := CountBuckets(d, key, a0);
    counting := PrefixSumInPlace(counting);
    var offset := counting;
    var scattered;
    scattered, counting := Scatter(d, key, a0, aux0, offset);
    BucketSizesTotal(d, key, a0);
    a, aux := SortSlotsAndCopy(key, alg, so, BucketsOf(d, key, a0), offset, counting, a0, scattered);
  }
}

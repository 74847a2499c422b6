/**
 Keys, buckets and orderings shared by every part of the hybrid sort engine.

 An element of the engine is any value with an integer key: a plain 32-bit
 integer (the key is the value itself) or an indexed record whose key field is
 `toSort` and whose payload travels with it. The key domain is the full signed
 or unsigned 32-bit range.
 */
module Keys {

  /** The engine always distributes keys over 128 ordered buckets. */
  const BucketCount: nat := 128

  /** MAX - MIN + 1 for both 32-bit domains. */
  const DomainSpan: int := 0x1_0000_0000

  /** Width of one bucket: DomainSpan / BucketCount. */
  const BucketWidth: int := 0x200_0000

  datatype Domain = Signed | Unsigned

  function MinKey(d: Domain): int {
    if d.Signed? then -0x8000_0000 else 0
  }

  function MaxKey(d: Domain): int {
    MinKey(d) + DomainSpan - 1
  }

  predicate InDomain(d: Domain, k: int) {
    MinKey(d) <= k <= MaxKey(d)
  }

  /** Every key of `s` is a representable 32-bit key of domain `d`. */
  predicate AllInDomain<T>(d: Domain, key: T -> int, s: seq<T>) {
    forall i :: 0 <= i < |s| ==> InDomain(d, key(s[i]))
  }

  /** The bucket of a key: ((int64)key - MIN) * 128 / (MAX - MIN + 1), in 64-bit arithmetic. */
  function BucketIndex(d: Domain, k: int): (b: nat)
    requires InDomain(d, k)
    ensures b < BucketCount
  {
    ((k - MinKey(d)) * BucketCount) / DomainSpan
  }

  /** Bucket `b` holds exactly the keys whose offset from MIN lies in [b*2^25, (b+1)*2^25). */
  lemma BucketBounds(d: Domain, k: int)
    requires InDomain(d, k)
    ensures BucketIndex(d, k) * BucketWidth <= k - MinKey(d) < (BucketIndex(d, k) + 1) * BucketWidth
  {
    var x := k - MinKey(d);
    var b := BucketIndex(d, k);
    assert x * BucketCount == (x * BucketCount / DomainSpan) * DomainSpan + (x * BucketCount) % DomainSpan;
    assert b * DomainSpan <= x * BucketCount < (b + 1) * DomainSpan;
  }

  /** The bucket map is monotone: a smaller key never lands in a later bucket. */
  lemma BucketMonotone(d: Domain, k1: int, k2: int)
    requires InDomain(d, k1) && InDomain(d, k2) && k1 <= k2
    ensures BucketIndex(d, k1) <= BucketIndex(d, k2)
  {
    BucketBounds(d, k1);
    BucketBounds(d, k2);
    var b1, b2 := BucketIndex(d, k1), BucketIndex(d, k2);
    assert b1 * BucketWidth < (b2 + 1) * BucketWidth;
    MulCancelStrict(b1, b2 + 1, BucketWidth);
  }

  lemma MulCancelStrict(a: int, b: int, c: int)
    requires c > 0 && a * c < b * c
    ensures a < b
  {
    if a >= b {
      MulMonotone(b, a, c);
    }
  }

  lemma MulMonotone(a: int, b: int, c: int)
    requires c > 0 && a <= b
    ensures a * c <= b * c
  {
  }

  /** Contrapositive of monotonicity: an earlier bucket holds strictly smaller keys. */
  lemma EarlierBucketSmallerKey(d: Domain, k1: int, k2: int)
    requires InDomain(d, k1) && InDomain(d, k2)
    requires BucketIndex(d, k1) < BucketIndex(d, k2)
    ensures k1 < k2
  {
    if k2 <= k1 {
      BucketMonotone(d, k2, k1);
    }
  }

  /** memcpy of `run` into `x` at `lo`: that range now holds `run` and nothing else changes. */
  function Splice<T>(x: seq<T>, lo: nat, run: seq<T>): (r: seq<T>)
    requires lo + |run| <= |x|
    ensures |r| == |x|
    ensures r[..lo] == x[..lo] && r[lo..lo + |run|] == run && r[lo + |run|..] == x[lo + |run|..]
  {
    x[..lo] + run + x[lo + |run|..]
  }

  /** A sequence is its three pieces around `p` and `q`, in order. */
  lemma SplitThree<T>(s: seq<T>, p: nat, q: nat)
    requires p <= q <= |s|
    ensures s == s[..p] + s[p..q] + s[q..]
  {
    assert s[..q] == s[..p] + s[p..q];
    assert s == s[..q] + s[q..];
  }

  /** A copy that ends at or before `m` leaves everything from `m` on unchanged. */
  lemma SpliceTail<T>(x: seq<T>, lo: nat, run: seq<T>, m: nat)
    requires lo + |run| <= m <= |x|
    ensures Splice(x, lo, run)[m..] == x[m..]
  {
    var y := Splice(x, lo, run);
    assert y[m..] == y[lo + |run|..][m - lo - |run|..];
  }

  /** Non-decreasing by key. */
  predicate SortedBy<T>(key: T -> int, s: seq<T>) {
    forall i, j {:trigger key(s[i]), key(s[j])} :: 0 <= i < j < |s| ==> key(s[i]) <= key(s[j])
  }

  /** The keys of `s`, in order. */
  function KeysOf<T>(key: T -> int, s: seq<T>): (r: seq<int>)
    ensures |r| == |s|
    ensures forall i :: 0 <= i < |s| ==> r[i] == key(s[i])
  {
    seq(|s|, i requires 0 <= i < |s| => key(s[i]))
  }

  /** The elements of `s` whose key is `k`, in their order in `s`. */
  function WithKey<T>(key: T -> int, k: int, s: seq<T>): seq<T> {
    if s == [] then []
    else (if key(s[0]) == k then [s[0]] else []) + WithKey(key, k, s[1..])
  }

  lemma WithKeyAppend<T>(key: T -> int, k: int, a: seq<T>, b: seq<T>)
    ensures WithKey(key, k, a + b) == WithKey(key, k, a) + WithKey(key, k, b)
  {
    if a != [] {
      assert (a + b)[0] == a[0];
      assert (a + b)[1..] == a[1..] + b;
      WithKeyAppend(key, k, a[1..], b);
    } else {
      assert a + b == b;
    }
  }

  /** `t` is a stable rearrangement of `s`: for every key, the elements with that key keep their relative order. */
  ghost predicate StableRearrangement<T>(key: T -> int, s: seq<T>, t: seq<T>) {
    forall k :: WithKey(key, k, t) == WithKey(key, k, s)
  }

  /** The base sort strategies of the engine. `AlgNone` leaves a range as it is. */
  datatype Algorithm = AlgNone | AlgStd | AlgRadixCounting

  /**
   The two opaque base sorts: std::sort (with the key comparator for indexed
   records) and the library's radix/counting sort. Neither is visible, so each is
   a parameter constrained only by `SortsBy`.
   */
  datatype Sorters<!T> = Sorters(std: seq<T> -> seq<T>, radix: seq<T> -> seq<T>)

  /**
   `f` returns a sorted permutation of every input, and nothing else is known
   about it. The length is stated on its own (it follows from the permutation)
   so that lengths are known wherever a sort is applied, while the sorted
   permutation is only brought in where sortedness of a result is in question.
   */
  ghost predicate SortsBy<T(!new)>(key: T -> int, f: seq<T> -> seq<T>) {
    (forall s :: |f(s)| == |s|) &&
    (forall s {:trigger SortedBy(key, f(s))} :: SortedBy(key, f(s)) && multiset(f(s)) == multiset(s))
  }

  ghost predicate ValidSorters<T(!new)>(key: T -> int, so: Sorters<T>) {
    SortsBy(key, so.std) && SortsBy(key, so.radix)
  }

  /** Sorting one contiguous range with the selected strategy; `AlgNone` is a no-op. */
  function ApplySort<T(!new)>(key: T -> int, alg: Algorithm, so: Sorters<T>, s: seq<T>): (r: seq<T>)
    requires ValidSorters(key, so)
    ensures |r| == |s|
    ensures alg == AlgNone ==> r == s
  {
    match alg
    case AlgNone => s
    case AlgStd => so.std(s)
    case AlgRadixCounting => so.radix(s)
  }

  /** Every algorithm permutes its input, and every algorithm but None sorts it. */
  lemma ApplySortSorts<T(!new)>(key: T -> int, alg: Algorithm, so: Sorters<T>, s: seq<T>)
    requires ValidSorters(key, so)
    ensures multiset(ApplySort(key, alg, so, s)) == multiset(s)
    ensures alg != AlgNone ==> SortedBy(key, ApplySort(key, alg, so, s))
  {
    assert SortedBy(key, so.std(s)) && SortedBy(key, so.radix(s));
  }

  /**
   The selected algorithm is stable on every input: the assumption under which
   the merge gather is a stable sort. It concerns only the algorithm the call
   names, so the radix path does not depend on `std::sort`.
   */
  ghost predicate StableAlgorithm<T(!new)>(key: T -> int, alg: Algorithm, so: Sorters<T>) {
    ValidSorters(key, so) && forall u :: StableRearrangement(key, u, ApplySort(key, alg, so, u))
  }

  lemma MultisetInDomain<T>(d: Domain, key: T -> int, s: seq<T>, t: seq<T>)
    requires AllInDomain(d, key, s)
    requires multiset(t) == multiset(s)
    ensures AllInDomain(d, key, t)
  {
    forall i | 0 <= i < |t|
      ensures InDomain(d, key(t[i]))
    {
      assert t[i] in multiset(t);
      assert t[i] in multiset(s);
      var j :| 0 <= j < |s| && s[j] == t[i];
    }
  }

  /** Removing the element at index `j` from a sorted sequence keeps it sorted. */
  lemma RemovePreservesSorted<T>(key: T -> int, t: seq<T>, j: nat)
    requires j < |t| && SortedBy(key, t)
    ensures SortedBy(key, t[..j] + t[j + 1..])
  {
    var u := t[..j] + t[j + 1..];
    forall a, b | 0 <= a < b < |u|
      ensures key(u[a]) <= key(u[b])
    {
      var a' := if a < j then a else a + 1;
      var b' := if b < j then b else b + 1;
      assert u[a] == t[a'] && u[b] == t[b'];
    }
  }

  lemma MultisetRemove<T>(t: seq<T>, j: nat)
    requires j < |t|
    ensures multiset(t[..j] + t[j + 1..]) == multiset(t) - multiset{t[j]}
  {
    assert t == t[..j] + [t[j]] + t[j + 1..];
  }

  /** In a sorted `t`, an element at `j` with the least key can be moved to the front without changing the keys. */
  lemma KeysOfRemoveLeast<T>(key: T -> int, t: seq<T>, j: nat)
    requires j < |t| && SortedBy(key, t) && key(t[j]) == key(t[0])
    ensures KeysOf(key, t) == [key(t[j])] + KeysOf(key, t[..j] + t[j + 1..])
  {
    var u := t[..j] + t[j + 1..];
    var l := [key(t[j])] + KeysOf(key, u);
    forall i | 0 <= i < |t|
      ensures KeysOf(key, t)[i] == l[i]
    {
      if 0 < i <= j {
        assert u[i - 1] == t[i - 1];
        assert key(t[0]) <= key(t[i - 1]) <= key(t[i]) <= key(t[j]);
      } else if i > j {
        assert u[i - 1] == t[i];
      }
    }
  }

  /**
   Sorted permutations of the same multiset have the same key sequence, whatever
   sort produced them: the base of every cross-strategy and cross-backend agreement.
   */
  lemma {:induction false} SortedPermutationsAgreeOnKeys<T>(key: T -> int, s: seq<T>, t: seq<T>)
    requires SortedBy(key, s) && SortedBy(key, t)
    requires multiset(s) == multiset(t)
    ensures KeysOf(key, s) == KeysOf(key, t)
    decreases |s|
  {
    assert |s| == |multiset(s)| == |multiset(t)| == |t|;
    if s != [] {
      var j := FindIndex(t, s[0]);
      var t' := t[..j] + t[j + 1..];
      LeastKeyAgrees(key, s, t, j);
      RemoveMatched(s, t, j);
      RemovePreservesSorted(key, t, j);
      RemovePreservesSorted(key, s, 0);
      SortedPermutationsAgreeOnKeys(key, s[..0] + s[0 + 1..], t');
      KeysOfRemoveLeast(key, t, j);
      KeysOfRemoveLeast(key, s, 0);
      var ks', kt' := KeysOf(key, s[..0] + s[0 + 1..]), KeysOf(key, t');
      assert ks' == kt';
      assert KeysOf(key, s) == [key(s[0])] + ks';
      assert KeysOf(key, t) == [key(t[j])] + kt';
    }
  }

  lemma RemoveMatched<T>(s: seq<T>, t: seq<T>, j: nat)
    requires multiset(s) == multiset(t) && s != []
    requires j < |t| && t[j] == s[0]
    ensures multiset(s[..0] + s[0 + 1..]) == multiset(t[..j] + t[j + 1..])
  {
    MultisetRemove(t, j);
    MultisetRemove(s, 0);
  }

  /** An index at which `x` occurs in `t`. */
  lemma FindIndex<T>(t: seq<T>, x: T) returns (j: nat)
    requires x in multiset(t)
    ensures j < |t| && t[j] == x
  {
    assert x in t;
    j :| 0 <= j < |t| && t[j] == x;
  }

  /** The first elements of two sorted permutations have the same key. */
  lemma LeastKeyAgrees<T>(key: T -> int, s: seq<T>, t: seq<T>, j: nat)
    requires SortedBy(key, s) && SortedBy(key, t)
    requires multiset(s) == multiset(t) && s != []
    requires j < |t| && t[j] == s[0]
    ensures key(t[j]) == key(t[0])
  {
    assert t[0] in multiset(s);
    var j' := FindIndex(s, t[0]);
  }

  /** For plain integer arrays the key is the value, so all sorted permutations are equal. */
  lemma SortedPermutationsOfIntsAreEqual(s: seq<int>, t: seq<int>)
    requires SortedBy(x => x, s) && SortedBy(x => x, t)
    requires multiset(s) == multiset(t)
    ensures s == t
  {
    SortedPermutationsAgreeOnKeys(x => x, s, t);
    var ks := KeysOf(x => x, s);
    var kt := KeysOf(x => x, t);
    assert ks == s && kt == t;
  }
}

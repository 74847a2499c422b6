/**
 The block merge sort shared by both backends: the left-biased two-pointer
 merge, one job of it over an array range, a round of jobs, the block phase
 and the driver that alternates the roles of the caller's array and the
 scratch buffer.
 */
module Merging {
  import opened Keys

  function Min(a: nat, b: nat): nat {
    if a <= b then a else b
  }

  /** The two-pointer merge: the right element is taken only when the left key is strictly greater. */
  function Merge<T>(key: T -> int, a: seq<T>, b: seq<T>): (r: seq<T>)
    ensures |r| == |a| + |b|
    decreases |a| + |b|
  {
    if a == [] then b
    else if b == [] then a
    else if key(a[0]) > key(b[0]) then [b[0]] + Merge(key, a, b[1..])
    else [a[0]] + Merge(key, a[1..], b)
  }

  /** The merge loses and invents nothing. */
  lemma {:induction false} MergePermutes<T>(key: T -> int, a: seq<T>, b: seq<T>)
    ensures multiset(Merge(key, a, b)) == multiset(a) + multiset(b)
    decreases |a| + |b|
  {
    if a != [] && b != [] {
      if key(a[0]) > key(b[0]) {
        MergePermutes(key, a, b[1..]);
        MergeTakesRight(key, a, b);
        assert b == [b[0]] + b[1..];
      } else {
        MergePermutes(key, a[1..], b);
        MergeTakesLeft(key, a, b);
        assert a == [a[0]] + a[1..];
      }
    }
  }

  /** The merge starts with the left head when the right run is empty or its head is not smaller. */
  lemma MergeTakesLeft<T>(key: T -> int, a: seq<T>, b: seq<T>)
    requires a != [] && (b == [] || key(a[0]) <= key(b[0]))
    ensures Merge(key, a, b) == [a[0]] + Merge(key, a[1..], b)
  {
    if b == [] {
      assert a[1..] == [] || Merge(key, a[1..], b) == a[1..];
    }
  }

  /** The merge starts with the right head when the left run is empty or its head is greater. */
  lemma MergeTakesRight<T>(key: T -> int, a: seq<T>, b: seq<T>)
    requires b != [] && (a == [] || key(a[0]) > key(b[0]))
    ensures Merge(key, a, b) == [b[0]] + Merge(key, a, b[1..])
  {
  }

  /** The first element of a merge is the first element of one of its inputs. */
  lemma MergeHead<T>(key: T -> int, a: seq<T>, b: seq<T>)
    requires a != [] || b != []
    ensures Merge(key, a, b) != []
    ensures (a != [] && Merge(key, a, b)[0] == a[0]) || (b != [] && Merge(key, a, b)[0] == b[0])
  {
  }

  /** Merging two sorted runs gives a sorted run. */
  lemma {:induction false} MergeSorted<T>(key: T -> int, a: seq<T>, b: seq<T>)
    requires SortedBy(key, a) && SortedBy(key, b)
    ensures SortedBy(key, Merge(key, a, b))
    decreases |a| + |b|
  {
    if a != [] && b != [] {
      var m := Merge(key, a, b);
      if key(a[0]) > key(b[0]) {
        var rest := Merge(key, a, b[1..]);
        MergeSorted(key, a, b[1..]);
        MergePermutes(key, a, b[1..]);
        HeadBelowRest(key, b[0], rest, a, b[1..]);
      } else {
        var rest := Merge(key, a[1..], b);
        MergeSorted(key, a[1..], b);
        MergePermutes(key, a[1..], b);
        HeadBelowRest(key, a[0], rest, a[1..], b);
      }
    }
  }

  /**
   If `x` is no greater than every key of `a` and `b`, then putting it before
   the sorted merge `rest` of `a` and `b` keeps it sorted.
   */
  lemma HeadBelowRest<T>(key: T -> int, x: T, rest: seq<T>, a: seq<T>, b: seq<T>)
    requires SortedBy(key, a) && SortedBy(key, b) && SortedBy(key, rest)
    requires multiset(rest) == multiset(a) + multiset(b)
    requires a != [] ==> key(x) <= key(a[0])
    requires b != [] ==> key(x) <= key(b[0])
    ensures SortedBy(key, [x] + rest)
  {
    forall j | 0 <= j < |rest|
      ensures key(x) <= key(rest[j])
    {
      assert rest[j] in multiset(rest);
      if rest[j] in multiset(a) {
        assert rest[j] in a;
        var p :| 0 <= p < |a| && a[p] == rest[j];
      } else {
        assert rest[j] in b;
        var p :| 0 <= p < |b| && b[p] == rest[j];
      }
    }
    forall i, j | 0 <= i < j < |[x] + rest|
      ensures key(([x] + rest)[i]) <= key(([x] + rest)[j])
    {
      if i > 0 {
        assert ([x] + rest)[i] == rest[i - 1];
      }
      assert ([x] + rest)[j] == rest[j - 1];
    }
  }

  /**
   The merge is stable when both runs are sorted: for every key, the elements
   with that key come out as those of the left run followed by those of the right run.
   */
  lemma {:induction false} MergeStable<T>(key: T -> int, a: seq<T>, b: seq<T>, k: int)
    requires SortedBy(key, a) && SortedBy(key, b)
    ensures WithKey(key, k, Merge(key, a, b)) == WithKey(key, k, a) + WithKey(key, k, b)
    decreases |a| + |b|
  {
    if a == [] {
      assert WithKey(key, k, a) == [];
    } else if b == [] {
      assert WithKey(key, k, b) == [];
    } else if key(a[0]) > key(b[0]) {
      MergeStable(key, a, b[1..], k);
      if key(b[0]) == k {
        NoKeyBelowHead(key, a, k);
      }
    } else {
      MergeStable(key, a[1..], b, k);
    }
  }

  /** A sorted run whose first key exceeds `k` has no element with key `k`. */
  lemma {:induction false} NoKeyBelowHead<T>(key: T -> int, a: seq<T>, k: int)
    requires SortedBy(key, a) && a != [] && key(a[0]) > k
    ensures WithKey(key, k, a) == []
    decreases |a|
  {
    if |a| > 1 {
      NoKeyBelowHead(key, a[1..], k);
    }
  }

  /**
   The state of a merge job part-way through: the left run is consumed up to
   `ai`, the right run up to `bi`, and what has been written to out[i..] followed
   by the merge of what is left is the merge of both whole runs. Outside the
   written part `out` is still `out0`.
   */
  ghost predicate JobState<T>(key: T -> int, inp: seq<T>, out0: seq<T>, out: seq<T>,
                              i: nat, ai: nat, am: nat, bi: nat, bm: nat)
  {
    i <= ai <= am <= bi <= bm <= |inp| && |out| == |inp| == |out0| &&
    out[..i] == out0[..i] && out[ai + bi - am..] == out0[ai + bi - am..] &&
    out[i..ai + bi - am] + Merge(key, inp[ai..am], inp[bi..bm]) == Merge(key, inp[i..am], inp[am..bm])
  }

  /** Writing the head of the left run is the next step of the merge when the right run is empty or its head is not smaller. */
  lemma JobTakeLeft<T>(key: T -> int, inp: seq<T>, out0: seq<T>, out: seq<T>, w: nat,
                       i: nat, ai: nat, am: nat, bi: nat, bm: nat)
    requires JobState(key, inp, out0, out, i, ai, am, bi, bm)
    requires ai < am && (bi == bm || key(inp[ai]) <= key(inp[bi]))
    requires w == ai + bi - am
    ensures JobState(key, inp, out0, out[w := inp[ai]], i, ai + 1, am, bi, bm)
  {
    assert inp[ai..am][0] == inp[ai] && inp[ai..am][1..] == inp[ai + 1..am];
    assert bi < bm ==> inp[bi..bm][0] == inp[bi];
    MergeTakesLeft(key, inp[ai..am], inp[bi..bm]);
    WriteNext(out0, out, i, w, inp[ai], Merge(key, inp[ai + 1..am], inp[bi..bm]), Merge(key, inp[i..am], inp[am..bm]));
  }

  /** Writing the head of the right run is the next step of the merge when the left run is empty or its head is greater. */
  lemma JobTakeRight<T>(key: T -> int, inp: seq<T>, out0: seq<T>, out: seq<T>, w: nat,
                        i: nat, ai: nat, am: nat, bi: nat, bm: nat)
    requires JobState(key, inp, out0, out, i, ai, am, bi, bm)
    requires bi < bm && (ai == am || key(inp[ai]) > key(inp[bi]))
    requires w == ai + bi - am
    ensures JobState(key, inp, out0, out[w := inp[bi]], i, ai, am, bi + 1, bm)
  {
    assert inp[bi..bm][0] == inp[bi] && inp[bi..bm][1..] == inp[bi + 1..bm];
    assert ai < am ==> inp[ai..am][0] == inp[ai];
    MergeTakesRight(key, inp[ai..am], inp[bi..bm]);
    WriteNext(out0, out, i, w, inp[bi], Merge(key, inp[ai..am], inp[bi + 1..bm]), Merge(key, inp[i..am], inp[am..bm]));
  }

  /**
   Writing `x` at `w`, where out[i..w] followed by `x` and `rest` makes `whole`:
   out[i..w+1] followed by `rest` makes `whole`, and only position `w` changes.
   */
  lemma WriteNext<T>(out0: seq<T>, out: seq<T>, i: nat, w: nat, x: T, rest: seq<T>, whole: seq<T>)
    requires i <= w < |out| == |out0| && out[..i] == out0[..i] && out[w..] == out0[w..]
    requires out[i..w] + ([x] + rest) == whole
    ensures out[w := x][..i] == out0[..i] && out[w := x][w + 1..] == out0[w + 1..]
    ensures out[w := x][i..w + 1] + rest == whole
  {
    var out' := out[w := x];
    assert out'[i..w + 1] == out[i..w] + [x];
    assert out'[w + 1..] == out[w..][1..];
  }

  /** Before the first step nothing is written. */
  lemma JobStart<T>(key: T -> int, inp: seq<T>, out0: seq<T>, i: nat, am: nat, bm: nat)
    requires i <= am <= bm <= |inp| == |out0|
    ensures JobState(key, inp, out0, out0, i, i, am, am, bm)
  {
    assert out0[i..i] == [];
  }

  /** When both runs are consumed, `out` is `out0` with the merged range written. */
  lemma JobDone<T>(key: T -> int, inp: seq<T>, out0: seq<T>, out: seq<T>, i: nat, am: nat, bm: nat)
    requires JobState(key, inp, out0, out, i, am, am, bm, bm)
    ensures out == out0[..i] + Merge(key, inp[i..am], inp[am..bm]) + out0[bm..]
  {
    assert out == out[..i] + out[i..bm] + out[bm..];
  }

  /** The main loop of a merge job: take from whichever run has the smaller head, the left one on ties. */
  method MergeHeads<T>(key: T -> int, inp: seq<T>, out0: seq<T>, out1: seq<T>, i: nat, am: nat, bm: nat)
    returns (out: seq<T>, ai: nat, bi: nat)
    requires JobState(key, inp, out0, out1, i, i, am, am, bm)
    ensures JobState(key, inp, out0, out, i, ai, am, bi, bm)
    ensures ai == am || bi == bm
  {
    var writeIndex: nat := i;
    var writeMax := bm;
    ai, bi := i, am;
    out := out1;
    while writeIndex < writeMax && ai < am && bi < bm
      invariant JobState(key, inp, out0, out, i, ai, am, bi, bm)
      invariant writeIndex == ai + bi - am
      decreases bm - writeIndex
    {
      if key(inp[ai]) > key(inp[bi]) {
        JobTakeRight(key, inp, out0, out, writeIndex, i, ai, am, bi, bm);
        out := out[writeIndex := inp[bi]];
        bi := bi + 1;
      } else {
        JobTakeLeft(key, inp, out0, out, writeIndex, i, ai, am, bi, bm);
        out := out[writeIndex := inp[ai]];
        ai := ai + 1;
      }
      writeIndex := writeIndex + 1;
    }
  }

  /** The first tail loop of a merge job: the rest of the left run is copied once the right run is used up. */
  method CopyLeftTail<T>(key: T -> int, inp: seq<T>, out0: seq<T>, out1: seq<T>,
                         i: nat, ai0: nat, am: nat, bi: nat, bm: nat)
    returns (out: seq<T>)
    requires JobState(key, inp, out0, out1, i, ai0, am, bi, bm)
    requires ai0 == am || bi == bm
    ensures JobState(key, inp, out0, out, i, am, am, bi, bm)
  {
    var ai := ai0;
    var writeIndex: nat := ai + bi - am;
    out := out1;
    while ai < am
      invariant JobState(key, inp, out0, out, i, ai, am, bi, bm)
      invariant writeIndex == ai + bi - am
      decreases am - ai
    {
      JobTakeLeft(key, inp, out0, out, writeIndex, i, ai, am, bi, bm);
      out := out[writeIndex := inp[ai]];
      writeIndex := writeIndex + 1;
      ai := ai + 1;
    }
  }

  /** The second tail loop of a merge job: the rest of the right run is copied once the left run is used up. */
  method CopyRightTail<T>(key: T -> int, inp: seq<T>, out0: seq<T>, out1: seq<T>,
                          i: nat, am: nat, bi0: nat, bm: nat)
    returns (out: seq<T>)
    requires JobState(key, inp, out0, out1, i, am, am, bi0, bm)
    ensures JobState(key, inp, out0, out, i, am, am, bm, bm)
  {
    var bi := bi0;
    var writeIndex: nat := bi;
    out := out1;
    while bi < bm
      invariant JobState(key, inp, out0, out, i, am, am, bi, bm)
      invariant writeIndex == bi
      decreases bm - bi
    {
      JobTakeRight(key, inp, out0, out, writeIndex, i, am, am, bi, bm);
      out := out[writeIndex := inp[bi]];
      writeIndex := writeIndex + 1;
      bi := bi + 1;
    }
  }

  /**
   The output buffer after one merge job: the runs [i, min(i+ec,size)) and
   [i+ec, min(i+2ec,size)) of `inp` merged into the same range of `out`, the
   rest of `out` unchanged. A run without a partner is copied unchanged.
   */
  function MergeInto<T>(key: T -> int, inp: seq<T>, out: seq<T>, i: nat, ec: nat): (r: seq<T>)
    requires |out| == |inp| && i < |inp| && ec >= 1
    ensures |r| == |out|
    ensures r[..i] == out[..i] && r[Min(i + 2 * ec, |inp|)..] == out[Min(i + 2 * ec, |inp|)..]
    ensures multiset(r[i..Min(i + 2 * ec, |inp|)]) == multiset(inp[i..Min(i + 2 * ec, |inp|)])
  {
    var am, bm := Min(i + ec, |inp|), Min(i + 2 * ec, |inp|);
    AdjacentRunsMerge(key, inp, i, am, bm);
    PlaceRange(out, i, bm, Merge(key, inp[i..am], inp[am..bm]), inp[i..bm]);
    out[..i] + Merge(key, inp[i..am], inp[am..bm]) + out[bm..]
  }

  /** Merging two adjacent ranges gives a permutation of their union. */
  lemma AdjacentRunsMerge<T>(key: T -> int, s: seq<T>, i: nat, am: nat, bm: nat)
    requires i <= am <= bm <= |s|
    ensures |Merge(key, s[i..am], s[am..bm])| == bm - i
    ensures multiset(Merge(key, s[i..am], s[am..bm])) == multiset(s[i..bm])
  {
    MergePermutes(key, s[i..am], s[am..bm]);
    assert s[i..bm] == s[i..am] + s[am..bm];
  }

  /** Placing `m` at [i, e) of `out` leaves the outside alone and puts a permutation of `src` inside. */
  lemma PlaceRange<T>(out: seq<T>, i: nat, e: nat, m: seq<T>, src: seq<T>)
    requires i <= e <= |out| && |m| == e - i && multiset(m) == multiset(src)
    ensures var r := out[..i] + m + out[e..];
      |r| == |out| && r[..i] == out[..i] && r[e..] == out[e..] && multiset(r[i..e]) == multiset(src)
  {
    var r := out[..i] + m + out[e..];
    assert r[i..e] == m;
    assert r[e..] == out[e..];
  }

  /**
   One merge job (merge_job_* and the inline merge loop), as the source's
   two-pointer loop followed by the two tail copies.
   */
  method MergeJob<T>(key: T -> int, inp: seq<T>, out0: seq<T>, i: nat, ec: nat) returns (out: seq<T>)
    requires |out0| == |inp| && i < |inp| && ec >= 1
    ensures out == MergeInto(key, inp, out0, i, ec)
  {
    var size := |inp|;
    var aMax := Min(i + ec, size);
    var bMax := Min(i + ec + ec, size);
    JobStart(key, inp, out0, i, aMax, bMax);
    var ai, bi;
    out, ai, bi := MergeHeads(key, inp, out0, out0, i, aMax, bMax);
    out := CopyLeftTail(key, inp, out0, out, i, ai, aMax, bi, bMax);
    out := CopyRightTail(key, inp, out0, out, i, aMax, bi, bMax);
    JobDone(key, inp, out0, out, i, aMax, bMax);
    assert bMax == Min(i + 2 * ec, size);
  }

  /**
   One round over `s`: consecutive pairs of runs of width `ec` are merged left to
   right, and a last run without a partner is copied unchanged.
   */
  function Round<T>(key: T -> int, s: seq<T>, ec: nat): seq<T>
    requires ec >= 1
    decreases |s|
  {
    if s == [] then []
    else
      var am, bm := Min(ec, |s|), Min(2 * ec, |s|);
      Merge(key, s[..am], s[am..bm]) + Round(key, s[bm..], ec)
  }

  /** `s` is a sequence of sorted runs of width `w`, the last one possibly shorter. */
  ghost predicate SortedRuns<T>(key: T -> int, s: seq<T>, w: nat)
    requires w >= 1
    decreases |s|
  {
    s != [] ==> SortedBy(key, s[..Min(w, |s|)]) && SortedRuns(key, s[Min(w, |s|)..], w)
  }

  lemma SplitMultiset<T>(s: seq<T>, p: nat, q: nat)
    requires p <= q <= |s|
    ensures multiset(s) == multiset(s[..p]) + multiset(s[p..q]) + multiset(s[q..])
  {
    SplitThree(s, p, q);
  }

  /** A round permutes its input. */
  lemma {:induction false} RoundPermutes<T>(key: T -> int, s: seq<T>, ec: nat)
    requires ec >= 1
    ensures multiset(Round(key, s, ec)) == multiset(s)
    ensures |Round(key, s, ec)| == |s|
    decreases |s|
  {
    if s != [] {
      var am, bm := Min(ec, |s|), Min(2 * ec, |s|);
      var m, r := Merge(key, s[..am], s[am..bm]), Round(key, s[bm..], ec);
      MergePermutes(key, s[..am], s[am..bm]);
      RoundPermutes(key, s[bm..], ec);
      assert Round(key, s, ec) == m + r;
      assert multiset(m + r) == multiset(m) + multiset(r);
      SplitMultiset(s, am, bm);
    }
  }

  /** A round turns sorted runs of width ec into sorted runs of width 2ec. */
  lemma {:induction false} RoundDoublesRuns<T>(key: T -> int, s: seq<T>, ec: nat)
    requires ec >= 1 && SortedRuns(key, s, ec)
    ensures SortedRuns(key, Round(key, s, ec), 2 * ec)
    decreases |s|
  {
    if s != [] {
      var am, bm := Min(ec, |s|), Min(2 * ec, |s|);
      var rest := s[am..];
      assert rest[..Min(ec, |rest|)] == s[am..bm];
      assert rest[Min(ec, |rest|)..] == s[bm..];
      if rest != [] {
        assert SortedRuns(key, rest, ec);
      }
      MergeSorted(key, s[..am], s[am..bm]);
      MergePermutes(key, s[..am], s[am..bm]);
      RoundDoublesRuns(key, s[bm..], ec);
      var m := Merge(key, s[..am], s[am..bm]);
      var r := Round(key, s, ec);
      assert r == m + Round(key, s[bm..], ec);
      assert r[..Min(2 * ec, |r|)] == m;
      assert r[Min(2 * ec, |r|)..] == Round(key, s[bm..], ec);
    }
  }

  /** A round of merges keeps equal keys in their order when the runs are sorted. */
  lemma {:induction false} RoundStable<T>(key: T -> int, s: seq<T>, ec: nat, k: int)
    requires ec >= 1 && SortedRuns(key, s, ec)
    ensures WithKey(key, k, Round(key, s, ec)) == WithKey(key, k, s)
    decreases |s|
  {
    if s != [] {
      var am, bm := Min(ec, |s|), Min(2 * ec, |s|);
      var rest := s[am..];
      assert rest[..Min(ec, |rest|)] == s[am..bm];
      assert rest[Min(ec, |rest|)..] == s[bm..];
      if rest != [] {
        assert SortedRuns(key, rest, ec);
      }
      MergeStable(key, s[..am], s[am..bm], k);
      RoundStable(key, s[bm..], ec, k);
      WithKeyAppend(key, k, Merge(key, s[..am], s[am..bm]), Round(key, s[bm..], ec));
      SplitThree(s, am, bm);
      WithKeyAppend(key, k, s[..am] + s[am..bm], s[bm..]);
      WithKeyAppend(key, k, s[..am], s[am..bm]);
    }
  }

  /** Sorted runs at least as wide as the whole sequence make it sorted. */
  lemma SortedRunsWide<T>(key: T -> int, s: seq<T>, w: nat)
    requires w >= 1 && w >= |s| && SortedRuns(key, s, w)
    ensures SortedBy(key, s)
  {
    if s != [] {
      assert s[..Min(w, |s|)] == s;
    }
  }

  /** The rounds from run width `ec` on: merge until one run covers the whole sequence. */
  function MergeRounds<T>(key: T -> int, s: seq<T>, ec: nat): seq<T>
    requires ec >= 1
    decreases |s| - ec
  {
    if ec >= |s| then s
    else
      RoundPermutes(key, s, ec);
      MergeRounds(key, Round(key, s, ec), 2 * ec)
  }

  lemma {:induction false} MergeRoundsPermutes<T>(key: T -> int, s: seq<T>, ec: nat)
    requires ec >= 1
    ensures multiset(MergeRounds(key, s, ec)) == multiset(s)
    ensures |MergeRounds(key, s, ec)| == |s|
    decreases |s| - ec
  {
    if ec < |s| {
      RoundPermutes(key, s, ec);
      MergeRoundsPermutes(key, Round(key, s, ec), 2 * ec);
    }
  }

  /** Starting from sorted runs, the rounds end with a sorted sequence. */
  lemma {:induction false} MergeRoundsSorted<T>(key: T -> int, s: seq<T>, ec: nat)
    requires ec >= 1 && SortedRuns(key, s, ec)
    ensures SortedBy(key, MergeRounds(key, s, ec))
    decreases |s| - ec
  {
    if ec >= |s| {
      SortedRunsWide(key, s, ec);
    } else {
      RoundPermutes(key, s, ec);
      RoundDoublesRuns(key, s, ec);
      MergeRoundsSorted(key, Round(key, s, ec), 2 * ec);
    }
  }

  /** Starting from sorted runs, the rounds keep equal keys in their order. */
  lemma {:induction false} MergeRoundsStable<T>(key: T -> int, s: seq<T>, ec: nat, k: int)
    requires ec >= 1 && SortedRuns(key, s, ec)
    ensures WithKey(key, k, MergeRounds(key, s, ec)) == WithKey(key, k, s)
    decreases |s| - ec
  {
    if ec < |s| {
      RoundPermutes(key, s, ec);
      RoundDoublesRuns(key, s, ec);
      RoundStable(key, s, ec, k);
      MergeRoundsStable(key, Round(key, s, ec), 2 * ec, k);
    }
  }

  /** Unfolding a round at a group boundary `i`: the group starting at `i` is merged, then the round goes on after it. */
  lemma RoundAt<T>(key: T -> int, s: seq<T>, i: nat, ec: nat)
    requires ec >= 1 && i < |s|
    ensures Round(key, s[i..], ec)
         == Merge(key, s[i..Min(i + ec, |s|)], s[Min(i + ec, |s|)..Min(i + 2 * ec, |s|)])
          + Round(key, s[Min(i + 2 * ec, |s|)..], ec)
  {
    var t := s[i..];
    assert t[..Min(ec, |t|)] == s[i..Min(i + ec, |s|)];
    assert t[Min(ec, |t|)..Min(2 * ec, |t|)] == s[Min(i + ec, |s|)..Min(i + 2 * ec, |s|)];
    assert t[Min(2 * ec, |t|)..] == s[Min(i + 2 * ec, |s|)..];
  }

  /** The number of iterations of `for (i = 0; i < n; i += step)`: ceil(n / step). */
  function Iterations(n: nat, step: nat): nat
    requires step >= 1
  {
    (n + step - 1) / step
  }

  /** A loop counter that stepped just past `n` has run ceil(n / step) times. */
  lemma IterationsOfLoop(n: nat, step: nat, count: nat)
    requires step >= 1 && count * step >= n
    requires count == 0 || (count - 1) * step < n
    ensures count == Iterations(n, step)
  {
    var q := (n + step - 1) / step;
    assert q * step <= n + step - 1 < (q + 1) * step;
    if count < q {
      MulMonotone(count + 1, q, step);
    } else if count > q {
      MulMonotone(q + 1, count, step);
      assert (count - 1) * step >= q * step + step - step;
    }
  }

  /** After the jobs before `i`, `out` starts with the part of the round those jobs produce. */
  ghost predicate RoundState<T>(key: T -> int, inp: seq<T>, out: seq<T>, i: nat, ec: nat)
    requires ec >= 1
  {
    |out| == |inp| && out[..Min(i, |inp|)] + Round(key, inp[Min(i, |inp|)..], ec) == Round(key, inp, ec)
  }

  /** The job at group boundary `i` extends the round state to the next boundary. */
  lemma RoundStep<T>(key: T -> int, inp: seq<T>, out: seq<T>, out': seq<T>, i: nat, ec: nat)
    requires ec >= 1 && i < |inp| && RoundState(key, inp, out, i, ec)
    requires out' == MergeInto(key, inp, out, i, ec)
    ensures RoundState(key, inp, out', i + 2 * ec, ec)
  {
    var n := |inp|;
    var am, e := Min(i + ec, n), Min(i + 2 * ec, n);
    RoundAt(key, inp, i, ec);
    MergePermutes(key, inp[i..am], inp[am..e]);
    PrefixStep(out, out', i, e, Merge(key, inp[i..am], inp[am..e]), Round(key, inp[e..], ec), Round(key, inp, ec));
  }

  /**
   Writing the next piece `m` of a result at [i, e) moves the boundary between
   the written prefix and the still-to-compute rest from `i` to `e`.
   */
  lemma PrefixStep<T>(out: seq<T>, out': seq<T>, i: nat, e: nat, m: seq<T>, rest: seq<T>, whole: seq<T>)
    requires i <= e <= |out| && |m| == e - i
    requires out[..i] + (m + rest) == whole
    requires out' == out[..i] + m + out[e..]
    ensures |out'| == |out| && out'[..e] + rest == whole
  {
    assert out'[..e] == out[..i] + m;
  }

  /** Counting loop iterations: one more step adds `step` to the counter. */
  lemma CountStep(jobs: nat, step: nat)
    ensures (jobs + 1) * step == jobs * step + step
  {
  }

  /** One iteration of the job loop of a round: run the job at `i`, then move to the next group boundary. */
  method RoundLoopStep<T>(key: T -> int, inp: seq<T>, out: seq<T>, i: nat, jobs: nat, ec: nat)
    returns (out': seq<T>, i': nat, jobs': nat)
    requires ec >= 1 && i < |inp| && i == jobs * (2 * ec) && RoundState(key, inp, out, i, ec)
    ensures i' == jobs' * (2 * ec) && (jobs' - 1) * (2 * ec) < |inp| && i' > i
    ensures RoundState(key, inp, out', i', ec)
  {
    out' := MergeJob(key, inp, out, i, ec);
    RoundStep(key, inp, out, out', i, ec);
    CountStep(jobs, 2 * ec);
    i', jobs' := i + 2 * ec, jobs + 1;
    assert (jobs' - 1) * (2 * ec) == i;
  }

  /**
   One merge round: jobs at i = 0, 2ec, 4ec, ... while i < size, each merging
   its two runs from `inp` into `out0`. The jobs' output ranges tile [0, size),
   so the whole of `out0` is overwritten; the number of jobs is ceil(size / 2ec).
   */
  method MergeRound<T>(key: T -> int, inp: seq<T>, out0: seq<T>, ec: nat) returns (out: seq<T>, jobs: nat)
    requires |out0| == |inp| && ec >= 1
    ensures out == Round(key, inp, ec)
    ensures jobs == Iterations(|inp|, 2 * ec)
  {
    var size := |inp|;
    out := out0;
    jobs := 0;
    var i: nat := 0;
    while i < size
      invariant i == jobs * (2 * ec)
      invariant jobs == 0 || (jobs - 1) * (2 * ec) < size
      invariant RoundState(key, inp, out, i, ec)
    {
      out, i, jobs := RoundLoopStep(key, inp, out, i, jobs, ec);
    }
    assert out[..size] == out;
    IterationsOfLoop(size, 2 * ec, jobs);
  }

  /** The block phase: every block [i, min(i+bs, size)) is sorted on its own by the selected base sort. */
  function Blocks<T(!new)>(key: T -> int, alg: Algorithm, so: Sorters<T>, s: seq<T>, bs: nat): seq<T>
    requires ValidSorters(key, so) && bs >= 1
    decreases |s|
  {
    if s == [] then []
    else ApplySort(key, alg, so, s[..Min(bs, |s|)]) + Blocks(key, alg, so, s[Min(bs, |s|)..], bs)
  }

  lemma {:induction false} BlocksPermutes<T(!new)>(key: T -> int, alg: Algorithm, so: Sorters<T>, s: seq<T>, bs: nat)
    requires ValidSorters(key, so) && bs >= 1
    ensures multiset(Blocks(key, alg, so, s, bs)) == multiset(s)
    ensures |Blocks(key, alg, so, s, bs)| == |s|
    decreases |s|
  {
    if s != [] {
      var e := Min(bs, |s|);
      BlocksPermutes(key, alg, so, s[e..], bs);
      var h, r := ApplySort(key, alg, so, s[..e]), Blocks(key, alg, so, s[e..], bs);
      ApplySortSorts(key, alg, so, s[..e]);
      assert multiset(h + r) == multiset(h) + multiset(r);
      assert s == s[..e] + s[e..];
    }
  }

  /** With a base sort selected, the block phase leaves sorted runs of width `bs`. */
  lemma {:induction false} BlocksSorted<T(!new)>(key: T -> int, alg: Algorithm, so: Sorters<T>, s: seq<T>, bs: nat)
    requires ValidSorters(key, so) && bs >= 1 && alg != AlgNone
    ensures SortedRuns(key, Blocks(key, alg, so, s, bs), bs)
    decreases |s|
  {
    if s != [] {
      var e := Min(bs, |s|);
      var h, r := ApplySort(key, alg, so, s[..e]), Blocks(key, alg, so, s[e..], bs);
      BlocksSorted(key, alg, so, s[e..], bs);
      var t := h + r;
      assert |h| == e;
      assert t[..Min(bs, |t|)] == h;
      assert t[Min(bs, |t|)..] == r;
    }
  }

  /** With a stable selected sort, the block phase keeps equal keys in their order. */
  lemma {:induction false} BlocksStable<T(!new)>(key: T -> int, alg: Algorithm, so: Sorters<T>, s: seq<T>, bs: nat, k: int)
    requires ValidSorters(key, so) && StableAlgorithm(key, alg, so) && bs >= 1
    ensures WithKey(key, k, Blocks(key, alg, so, s, bs)) == WithKey(key, k, s)
    decreases |s|
  {
    if s != [] {
      var e := Min(bs, |s|);
      var h, r := ApplySort(key, alg, so, s[..e]), Blocks(key, alg, so, s[e..], bs);
      BlocksStable(key, alg, so, s[e..], bs, k);
      WithKeyAppend(key, k, h, r);
      assert s == s[..e] + s[e..];
      WithKeyAppend(key, k, s[..e], s[e..]);
      assert StableRearrangement(key, s[..e], ApplySort(key, alg, so, s[..e]));
    }
  }

  lemma BlocksAt<T(!new)>(key: T -> int, alg: Algorithm, so: Sorters<T>, s: seq<T>, i: nat, bs: nat)
    requires ValidSorters(key, so) && bs >= 1 && i < |s|
    ensures Blocks(key, alg, so, s[i..], bs)
         == ApplySort(key, alg, so, s[i..Min(i + bs, |s|)]) + Blocks(key, alg, so, s[Min(i + bs, |s|)..], bs)
  {
    var t := s[i..];
    assert t[..Min(bs, |t|)] == s[i..Min(i + bs, |s|)];
    assert t[Min(bs, |t|)..] == s[Min(i + bs, |s|)..];
  }

  /** Sorting block [i, min(i+bs, |a|)) of `a` in place. */
  function SortBlockAt<T(!new)>(key: T -> int, alg: Algorithm, so: Sorters<T>, a: seq<T>, i: nat, bs: nat): (r: seq<T>)
    requires ValidSorters(key, so) && i < |a|
    ensures |r| == |a|
  {
    var e := Min(i + bs, |a|);
    a[..i] + ApplySort(key, alg, so, a[i..e]) + a[e..]
  }

  /** After the jobs before `i`, the array starts with those sorted blocks and is untouched after them. */
  ghost predicate BlockState<T(!new)>(key: T -> int, alg: Algorithm, so: Sorters<T>, a0: seq<T>, a: seq<T>, i: nat, bs: nat)
    requires ValidSorters(key, so) && bs >= 1
  {
    |a| == |a0| && a[Min(i, |a0|)..] == a0[Min(i, |a0|)..] &&
    a[..Min(i, |a0|)] + Blocks(key, alg, so, a0[Min(i, |a0|)..], bs) == Blocks(key, alg, so, a0, bs)
  }

  /** Sorting block [i, min(i+bs, size)) in place extends the block state to the next block. */
  lemma BlockStep<T(!new)>(key: T -> int, alg: Algorithm, so: Sorters<T>, a0: seq<T>, a: seq<T>, i: nat, bs: nat)
    requires ValidSorters(key, so) && bs >= 1 && i < |a0|
    requires BlockState(key, alg, so, a0, a, i, bs)
    ensures BlockState(key, alg, so, a0, SortBlockAt(key, alg, so, a, i, bs), i + bs, bs)
  {
    var e := Min(i + bs, |a0|);
    assert Min(i, |a0|) == i;
    SuffixAgrees(a, a0, i, e);
    BlocksAt(key, alg, so, a0, i, bs);
    var run, rest, whole := ApplySort(key, alg, so, a[i..e]), Blocks(key, alg, so, a0[e..], bs), Blocks(key, alg, so, a0, bs);
    assert a[..i] + Blocks(key, alg, so, a0[i..], bs) == whole;
    assert run == ApplySort(key, alg, so, a0[i..e]);
    SortBlockAtIs(key, alg, so, a, i, bs, e);
    SpliceState(a, a0, i, e, run, rest, whole, SortBlockAt(key, alg, so, a, i, bs));
  }

  /** Sorting the block at `i` replaces [i, e) by its sorted copy. */
  lemma SortBlockAtIs<T(!new)>(key: T -> int, alg: Algorithm, so: Sorters<T>, a: seq<T>, i: nat, bs: nat, e: nat)
    requires ValidSorters(key, so) && i < |a| && e == Min(i + bs, |a|)
    ensures SortBlockAt(key, alg, so, a, i, bs) == a[..i] + ApplySort(key, alg, so, a[i..e]) + a[e..]
  {
  }

  /**
   Replacing [i, e) of a sequence that agrees with `a0` from `i` on, where the
   prefix before `i` followed by `run` and `rest` makes `whole`: the result agrees
   with `a0` from `e` on, and its prefix before `e` followed by `rest` makes `whole`.
   */
  lemma SpliceState<T>(a: seq<T>, a0: seq<T>, i: nat, e: nat, run: seq<T>, rest: seq<T>, whole: seq<T>, a': seq<T>)
    requires |a| == |a0| && i <= e <= |a| && |run| == e - i
    requires a[e..] == a0[e..] && a[..i] + (run + rest) == whole
    requires a' == a[..i] + run + a[e..]
    ensures |a'| == |a0| && a'[e..] == a0[e..] && a'[..e] + rest == whole
  {
    assert a'[..e] == a[..i] + run && a'[e..] == a[e..];
  }

  /** Two sequences that agree from `i` on agree on [i, e) and from `e` on. */
  lemma SuffixAgrees<T>(a: seq<T>, a0: seq<T>, i: nat, e: nat)
    requires |a| == |a0| && i <= e <= |a| && a[i..] == a0[i..]
    ensures a[i..e] == a0[i..e] && a[e..] == a0[e..]
  {
    assert a[i..e] == a[i..][..e - i] && a0[i..e] == a0[i..][..e - i];
    assert a[e..] == a[i..][e - i..] && a0[e..] == a0[i..][e - i..];
  }

  /**
   The block phase over the caller's array: one sort job per block
   [i, min(i+bs, size)); the blocks tile [0, size) and their number is ceil(size / bs).
   */
  method SortBlocks<T(!new)>(key: T -> int, alg: Algorithm, so: Sorters<T>, a0: seq<T>, bs: nat)
    returns (a: seq<T>, jobs: nat)
    requires ValidSorters(key, so) && bs >= 1
    ensures a == Blocks(key, alg, so, a0, bs)
    ensures jobs == Iterations(|a0|, bs)
  {
    var size := |a0|;
    a := a0;
    jobs := 0;
    var i: nat := 0;
    while i < size
      invariant i == jobs * bs
      invariant jobs == 0 || (jobs - 1) * bs < size
      invariant BlockState(key, alg, so, a0, a, i, bs)
    {
      BlockStep(key, alg, so, a0, a, i, bs);
      CountStep(jobs, bs);
      a := SortBlockAt(key, alg, so, a, i, bs);
      i := i + bs;
      jobs := jobs + 1;
    }
    assert a[..size] == a;
    IterationsOfLoop(size, bs, jobs);
  }

  /** Block size of the merge gather: size / threads, but at least 1. */
  function BlockSize(size: nat, threads: nat): (bs: nat)
    requires threads >= 1
    ensures bs >= 1
  {
    if size / threads == 0 then 1 else size / threads
  }

  /** What the merge gather leaves in the caller's array. */
  function MergeGatherResult<T(!new)>(key: T -> int, alg: Algorithm, so: Sorters<T>, s: seq<T>, threads: nat): seq<T>
    requires ValidSorters(key, so) && threads >= 1
  {
    var bs := BlockSize(|s|, threads);
    MergeRounds(key, Blocks(key, alg, so, s, bs), bs)
  }

  /**
   The merge gather returns a permutation of its input; with a base sort
   selected it is sorted, and when that base sort is stable it is a stable sort.
   */
  lemma MergeGatherCorrect<T(!new)>(key: T -> int, alg: Algorithm, so: Sorters<T>, s: seq<T>, threads: nat)
    requires ValidSorters(key, so) && threads >= 1
    ensures multiset(MergeGatherResult(key, alg, so, s, threads)) == multiset(s)
    ensures |MergeGatherResult(key, alg, so, s, threads)| == |s|
    ensures alg != AlgNone ==> SortedBy(key, MergeGatherResult(key, alg, so, s, threads))
    ensures alg != AlgNone && StableAlgorithm(key, alg, so) ==>
      StableRearrangement(key, s, MergeGatherResult(key, alg, so, s, threads))
  {
    var bs := BlockSize(|s|, threads);
    var b := Blocks(key, alg, so, s, bs);
    BlocksPermutes(key, alg, so, s, bs);
    MergeRoundsPermutes(key, b, bs);
    if alg != AlgNone {
      BlocksSorted(key, alg, so, s, bs);
      MergeRoundsSorted(key, b, bs);
      if StableAlgorithm(key, alg, so) {
        forall k
          ensures WithKey(key, k, MergeGatherResult(key, alg, so, s, threads)) == WithKey(key, k, s)
        {
          BlocksStable(key, alg, so, s, bs, k);
          MergeRoundsStable(key, b, bs, k);
        }
      }
    }
  }

  /**
   One round of the round loop: merge from the buffer `in` points to into the
   other one. The rounds still to run are one fewer, from the other buffer on.
   */
  method SwapRound<T>(key: T -> int, a: seq<T>, aux: seq<T>, inIsA: bool, ec: nat) returns (a': seq<T>, aux': seq<T>)
    requires |a| == |aux| && 1 <= ec < |a|
    ensures |a'| == |aux'| == |a|
    ensures (if inIsA then a' else aux') == (if inIsA then a else aux)
    ensures MergeRounds(key, if inIsA then aux' else a', 2 * ec) == MergeRounds(key, if inIsA then a else aux, ec)
  {
    var jobs;
    if inIsA {
      a' := a;
      aux', jobs := MergeRound(key, a, aux, ec);
      RoundPermutes(key, a, ec);
    } else {
      aux' := aux;
      a', jobs := MergeRound(key, aux, a, ec);
      RoundPermutes(key, aux, ec);
    }
  }

  /**
   The merge gather driver (merge_* and hybrid_merge_*): sort the blocks of
   the caller's array, then run rounds with `in` and `out` swapping between the
   array and the scratch buffer while the run width doubles, and copy back if
   the last round wrote to the scratch buffer.
   */
  method MergeGather<T(!new)>(key: T -> int, alg: Algorithm, so: Sorters<T>, a0: seq<T>, aux0: seq<T>, threads: nat)
    returns (a: seq<T>)
    requires ValidSorters(key, so) && threads >= 1 && |aux0| >= |a0|
    ensures a == MergeGatherResult(key, alg, so, a0, threads)
  {
    var size := |a0|;
    var bs := size / threads;
    if bs == 0 {
      bs := 1;
    }
    assert bs == BlockSize(size, threads);
    var blockJobs;
    a, blockJobs := SortBlocks(key, alg, so, a0, bs);
    BlocksPermutes(key, alg, so, a0, bs);
    var aux := aux0[..size];
    var inIsA := true;
    var elementCount := bs;
    ghost var target := MergeRounds(key, a, bs);
    while elementCount < size
      invariant elementCount >= 1 && |a| == size && |aux| == size
      invariant MergeRounds(key, if inIsA then a else aux, elementCount) == target
      decreases size - elementCount
    {
      a, aux := SwapRound(key, a, aux, inIsA, elementCount);
      inIsA := !inIsA;
      elementCount := 2 * elementCount;
    }
    assert MergeRounds(key, if inIsA then a else aux, elementCount) == if inIsA then a else aux;
    if !inIsA {
      a := aux;
    }
  }

}

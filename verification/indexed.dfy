/**
 The merge jobs of the indexed element kinds in the task-queue backend, as
 task_run routes them. A merge job created for IndexInt32 (IndexUInt32) data
 is run by merge_job_int32 (merge_job_uint32) through the `in_int32` and
 `out_int32` members of the job's union: the record arrays are read as arrays
 of 32-bit words, and the job's indices, which count records, are taken as word
 indices. This module models that word view, under the layout of an indexed
 record as two 32-bit words with `toSort` first, and sets it against the
 record merge of merge_job_IndexInt32 (merge_job_IndexUInt32), which is what
 the rest of the model runs for every merge job.
 */
module IndexedMerge {
  import opened Keys
  import M = Merging

  /** An indexed element: the key `toSort` and the index that travels with it. */
  datatype Indexed = Indexed(toSort: int, index: int)

  function ToSort(e: Indexed): int {
    e.toSort
  }

  /** merge_job_int32 compares the words themselves. */
  function WordKey(w: int): int {
    w
  }

  /** The word view of a record array: `toSort`, then `index`, for each record in turn. */
  function Words(s: seq<Indexed>): (w: seq<int>)
    ensures |w| == 2 * |s|
    decreases |s|
  {
    if s == [] then [] else [s[0].toSort, s[0].index] + Words(s[1..])
  }

  /** The record view of a word array of even length. */
  function Records(w: seq<int>): (s: seq<Indexed>)
    requires |w| % 2 == 0
    ensures |s| == |w| / 2
    decreases |w|
  {
    if w == [] then [] else [Indexed(w[0], w[1])] + Records(w[2..])
  }

  /** Reading a record array as words and back gives the same records. */
  lemma {:induction false} RecordsOfWords(s: seq<Indexed>)
    ensures Records(Words(s)) == s
    decreases |s|
  {
    if s != [] {
      var w := Words(s);
      assert w[2..] == Words(s[1..]);
      RecordsOfWords(s[1..]);
    }
  }

  /** Reading a word array of even length as records and back gives the same words. */
  lemma {:induction false} WordsOfRecords(w: seq<int>)
    requires |w| % 2 == 0
    ensures Words(Records(w)) == w
    decreases |w|
  {
    if w != [] {
      var s := Records(w);
      assert s[1..] == Records(w[2..]);
      WordsOfRecords(w[2..]);
    }
  }

  /**
   merge_job_int32 on word arrays of which only the first `size` words take
   part: the word runs at `i` of width `ec` below `size` are merged into the same
   words of the output; every other word keeps its value.
   */
  function WordJob(inW: seq<int>, outW: seq<int>, i: nat, ec: nat, size: nat): (r: seq<int>)
    requires |inW| == |outW| && i < size <= |inW| && ec >= 1
    ensures |r| == |outW| && r[size..] == outW[size..]
    ensures r[..i] == outW[..i]
  {
    var x := M.MergeInto(WordKey, inW[..size], outW[..size], i, ec);
    assert (x + outW[size..])[..i] == x[..i];
    x + outW[size..]
  }

  /**
   An indexed merge job as task_run runs it: the merge of words, on the word
   views of the record arrays, with the record indices `i`, `ec` and `size`.
   */
  function JobAsWritten(inp: seq<Indexed>, out: seq<Indexed>, i: nat, ec: nat): (r: seq<Indexed>)
    requires |inp| == |out| && i < |inp| && ec >= 1
    ensures |r| == |out|
  {
    Records(WordJob(Words(inp), Words(out), i, ec, |inp|))
  }

  /**
   As written, a job can break records apart: merging [(3,0), (1,1)] with run
   width 1 compares the words 3 and 0 of the first record, so the output range
   gets the record (0, 3), which the input does not hold.
   */
  lemma JobAsWrittenBreaksRecords()
    ensures var inp, out := [Indexed(3, 0), Indexed(1, 1)], [Indexed(7, 8), Indexed(9, 10)];
      JobAsWritten(inp, out, 0, 1) == [Indexed(0, 3), Indexed(9, 10)] &&
      multiset(JobAsWritten(inp, out, 0, 1)) != multiset(inp)
  {
    var inp, out := [Indexed(3, 0), Indexed(1, 1)], [Indexed(7, 8), Indexed(9, 10)];
    ExampleWords();
    ExampleWordJob();
    ExampleRecords();
    var r := JobAsWritten(inp, out, 0, 1);
    assert r == [Indexed(0, 3), Indexed(9, 10)];
    assert Indexed(3, 0) in multiset(inp);
    assert Indexed(3, 0) !in multiset(r);
  }

  /** The word views of the counterexample's input and stale auxiliary records. */
  lemma ExampleWords()
    ensures Words([Indexed(3, 0), Indexed(1, 1)]) == [3, 0, 1, 1]
    ensures Words([Indexed(7, 8), Indexed(9, 10)]) == [7, 8, 9, 10]
  {
    assert [Indexed(3, 0), Indexed(1, 1)][1..] == [Indexed(1, 1)];
    assert [Indexed(7, 8), Indexed(9, 10)][1..] == [Indexed(9, 10)];
    assert Words([Indexed(1, 1)]) == [1, 1];
    assert Words([Indexed(9, 10)]) == [9, 10];
  }

  /** The first word job of the counterexample: words 3 and 0 are merged as two runs. */
  lemma ExampleWordJob()
    ensures WordJob([3, 0, 1, 1], [7, 8, 9, 10], 0, 1, 2) == [0, 3, 9, 10]
  {
    var inW, outW := [3, 0, 1, 1], [7, 8, 9, 10];
    assert inW[..2] == [3, 0] && outW[..2] == [7, 8] && outW[2..] == [9, 10];
    ExampleMerge();
  }

  /** Merging the one-word runs [3] and [0] puts 0 first. */
  lemma ExampleMerge()
    ensures M.MergeInto(WordKey, [3, 0], [7, 8], 0, 1) == [0, 3]
  {
    var inW: seq<int> := [3, 0];
    assert M.Min(1, 2) == 1 && M.Min(2, 2) == 2;
    assert inW[0..1] == [3] && inW[1..2] == [0];
    M.MergeTakesRight(WordKey, [3], [0]);
    assert [0][1..] == [];
    assert M.Merge(WordKey, [3], [0]) == [0, 3];
    assert [7, 8][..0] == [] && [7, 8][2..] == [];
  }

  /** The words after the job, read back as records. */
  lemma ExampleRecords()
    ensures Records([0, 3, 9, 10]) == [Indexed(0, 3), Indexed(9, 10)]
  {
    assert [0, 3, 9, 10][2..] == [9, 10];
    assert [9, 10][2..] == [];
    assert Records([9, 10]) == [Indexed(9, 10)];
  }

  /**
   The record merge of merge_job_IndexInt32: the job's range of the output is a
   permutation of the same range of the input, every other record is kept, and
   two sorted runs give a sorted range in which equal keys keep their order.
   */
  lemma RecordJobKeepsRecords(inp: seq<Indexed>, out: seq<Indexed>, i: nat, ec: nat)
    requires |inp| == |out| && i < |inp| && ec >= 1
    ensures var r, e := M.MergeInto(ToSort, inp, out, i, ec), M.Min(i + 2 * ec, |inp|);
      r[..i] == out[..i] && r[e..] == out[e..] && multiset(r[i..e]) == multiset(inp[i..e])
    ensures var r, am, e := M.MergeInto(ToSort, inp, out, i, ec), M.Min(i + ec, |inp|), M.Min(i + 2 * ec, |inp|);
      SortedBy(ToSort, inp[i..am]) && SortedBy(ToSort, inp[am..e]) ==>
        SortedBy(ToSort, r[i..e]) &&
        forall k :: WithKey(ToSort, k, r[i..e]) == WithKey(ToSort, k, inp[i..am]) + WithKey(ToSort, k, inp[am..e])
  {
    var r, am, e := M.MergeInto(ToSort, inp, out, i, ec), M.Min(i + ec, |inp|), M.Min(i + 2 * ec, |inp|);
    assert r[i..e] == M.Merge(ToSort, inp[i..am], inp[am..e]);
    if SortedBy(ToSort, inp[i..am]) && SortedBy(ToSort, inp[am..e]) {
      M.MergeSorted(ToSort, inp[i..am], inp[am..e]);
      forall k
        ensures WithKey(ToSort, k, r[i..e]) == WithKey(ToSort, k, inp[i..am]) + WithKey(ToSort, k, inp[am..e])
      {
        M.MergeStable(ToSort, inp[i..am], inp[am..e], k);
      }
    }
  }

  /** The jobs of one round as written, at i = start, start+2ec, ... below `size`, each on the word views. */
  function RoundAsWritten(inW: seq<int>, outW: seq<int>, size: nat, ec: nat, i: nat): (r: seq<int>)
    requires |inW| == |outW| && size <= |inW| && ec >= 1
    ensures |r| == |outW| && r[size..] == outW[size..]
    decreases size - i
  {
    if i >= size then outW else RoundAsWritten(inW, WordJob(inW, outW, i, ec, size), size, ec, i + 2 * ec)
  }

  /**
   The round loop of merge_IndexInt32 as written, from run width `ec`: each
   round writes into the other buffer, the buffers swap, and the width doubles.
   The result is the final `in`, which the copy back leaves in the array.
   */
  function RoundsAsWritten(inW: seq<int>, outW: seq<int>, size: nat, ec: nat): (r: seq<int>)
    requires |inW| == |outW| && size <= |inW| && ec >= 1
    ensures |r| == |inW|
    ensures ec >= size ==> r == inW
    decreases size - ec
  {
    if ec >= size then inW else RoundsAsWritten(RoundAsWritten(inW, outW, size, ec, 0), inW, size, 2 * ec)
  }

  /**
   merge_IndexInt32 as written: the block phase sorts records, the rounds merge
   words, and the final `in`, read as records, is what the array holds.
   */
  function MergeGatherAsWritten(alg: Algorithm, so: Sorters<Indexed>, a: seq<Indexed>, aux: seq<Indexed>, threads: nat)
    : (r: seq<Indexed>)
    requires ValidSorters(ToSort, so) && threads >= 1 && |aux| == |a|
    ensures |r| == |a|
  {
    var bs := M.BlockSize(|a|, threads);
    var blocks := M.Blocks(ToSort, alg, so, a, bs);
    M.BlocksPermutes(ToSort, alg, so, a, bs);
    Records(RoundsAsWritten(Words(blocks), Words(aux), |a|, bs))
  }

  /** A sort of one element changes nothing. */
  lemma SingletonSort(alg: Algorithm, so: Sorters<Indexed>, x: Indexed)
    requires ValidSorters(ToSort, so)
    ensures M.Blocks(ToSort, alg, so, [x], 1) == [x]
  {
    var r := ApplySort(ToSort, alg, so, [x]);
    ApplySortSorts(ToSort, alg, so, [x]);
    assert r[0] in multiset(r);
    assert [x][..1] == [x] && [x][1..] == [];
    assert r == [x];
  }

  /** With one record per block, the block phase leaves the counterexample's input as it is. */
  lemma ExampleBlocks(alg: Algorithm, so: Sorters<Indexed>)
    requires ValidSorters(ToSort, so)
    ensures M.Blocks(ToSort, alg, so, [Indexed(3, 0), Indexed(1, 1)], 1) == [Indexed(3, 0), Indexed(1, 1)]
  {
    var a := [Indexed(3, 0), Indexed(1, 1)];
    SingletonSort(alg, so, Indexed(3, 0));
    SingletonSort(alg, so, Indexed(1, 1));
    assert a[..1] == [Indexed(3, 0)] && a[1..] == [Indexed(1, 1)];
    assert [Indexed(3, 0)][..1] == [Indexed(3, 0)];
  }

  /** The round loop on the counterexample's words: one round of width 1, then the loop ends. */
  lemma ExampleRounds()
    ensures RoundsAsWritten([3, 0, 1, 1], [7, 8, 9, 10], 2, 1) == [0, 3, 9, 10]
  {
    var inW: seq<int> := [3, 0, 1, 1];
    ExampleWordJob();
    assert RoundAsWritten(inW, [0, 3, 9, 10], 2, 1, 2) == [0, 3, 9, 10];
    assert RoundAsWritten(inW, [7, 8, 9, 10], 2, 1, 0) == [0, 3, 9, 10];
    assert RoundsAsWritten([0, 3, 9, 10], inW, 2, 2) == [0, 3, 9, 10];
  }

  /**
   Two threads and the records [(3,0), (1,1)], with the stale records
   [(7,8), (9,10)] in the auxiliary buffer: as written, the array ends up
   holding [(0,3), (9,10)], and neither input record survives. The record merge
   returns a permutation of the input on every input.
   */
  lemma MergeGatherAsWrittenLosesRecords(alg: Algorithm, so: Sorters<Indexed>)
    requires ValidSorters(ToSort, so)
    ensures var a, aux := [Indexed(3, 0), Indexed(1, 1)], [Indexed(7, 8), Indexed(9, 10)];
      MergeGatherAsWritten(alg, so, a, aux, 2) == [Indexed(0, 3), Indexed(9, 10)] &&
      multiset(MergeGatherAsWritten(alg, so, a, aux, 2)) != multiset(a) &&
      multiset(M.MergeGatherResult(ToSort, alg, so, a, 2)) == multiset(a)
  {
    var a, aux := [Indexed(3, 0), Indexed(1, 1)], [Indexed(7, 8), Indexed(9, 10)];
    assert M.BlockSize(2, 2) == 1;
    ExampleBlocks(alg, so);
    ExampleWords();
    ExampleRounds();
    ExampleRecords();
    var r := MergeGatherAsWritten(alg, so, a, aux, 2);
    assert r == [Indexed(0, 3), Indexed(9, 10)];
    assert Indexed(3, 0) in multiset(a);
    assert Indexed(3, 0) !in multiset(r);
    M.MergeGatherCorrect(ToSort, alg, so, a, 2);
  }
}

/**
 The thread-safe list queue (ObjectQueue) in its non-blocking mode, over
 integer elements: plain FIFO use (enqueue, dequeue from either end, peek,
 size), and ordered use (insertion and removal by binary search on a sorted
 list). A queue is either plain or ordered for its whole life; mixing the two
 aborts.
 */
module Queues {
  import opened Results
  import Keys

  /** The value `T()` a failed dequeue or removal returns. */
  const Default: int := 0

  datatype Queue = Queue(list: seq<int>, ordered: bool)

  /** What a dequeue hands back: the element, the queue after it, and the signal flag. */
  datatype Taken = Taken(value: int, queue: Queue, signaled: bool)

  /** The constructor: an empty queue, not yet ordered. */
  function NewQueue(): (q: Queue)
    ensures q.list == [] && !q.ordered
  {
    Queue([], false)
  }

  // ---------------------------------------------------------------------------
  // Plain FIFO use

  /** enqueue: append at the back; an ordered queue refuses it. */
  function Enqueue(q: Queue, v: int): (r: Outcome<Queue>)
    ensures r.Aborted? <==> q.ordered
    ensures r.Done? ==> r.value.list == q.list + [v] && !r.value.ordered
  {
    if q.ordered then Aborted else Done(Queue(q.list + [v], false))
  }

  /** size: the number of queued elements. */
  function Size(q: Queue): nat {
    |q.list|
  }

  /** peek: the front element, or `T()` on an empty queue; the queue is not changed. */
  function Peek(q: Queue): int {
    if |q.list| > 0 then q.list[0] else Default
  }

  /** Non-blocking dequeue: take the front element, or return `T()` and change nothing. Never signaled. */
  function Dequeue(q: Queue): (r: Taken)
    ensures !r.signaled && r.queue.ordered == q.ordered
    ensures |q.list| == 0 ==> r.value == Default && r.queue == q
    ensures |q.list| > 0 ==> [r.value] + r.queue.list == q.list
  {
    if |q.list| > 0 then Taken(q.list[0], q.(list := q.list[1..]), false)
    else Taken(Default, q, false)
  }

  /** Non-blocking rdequeue: take the back element, or return `T()` and change nothing. Never signaled. */
  function RDequeue(q: Queue): (r: Taken)
    ensures !r.signaled && r.queue.ordered == q.ordered
    ensures |q.list| == 0 ==> r.value == Default && r.queue == q
    ensures |q.list| > 0 ==> r.queue.list + [r.value] == q.list
  {
    if |q.list| > 0 then Taken(q.list[|q.list| - 1], q.(list := q.list[..|q.list| - 1]), false)
    else Taken(Default, q, false)
  }

  /**
   The queue is first-in first-out: enqueueing behind a non-empty queue does
   not change what comes out first, and the rest of the queue gets the new
   element at its back; on an empty queue the new element comes straight out.
   */
  lemma EnqueueDequeueFifo(q: Queue, v: int)
    requires !q.ordered
    ensures Enqueue(q, v).Done?
    ensures |q.list| == 0 ==> Dequeue(Enqueue(q, v).value) == Taken(v, q, false)
    ensures |q.list| > 0 ==> Dequeue(Enqueue(q, v).value).value == Dequeue(q).value
    ensures |q.list| > 0 ==> Enqueue(Dequeue(q).queue, v) == Done(Dequeue(Enqueue(q, v).value).queue)
  {
    if |q.list| > 0 {
      assert (q.list + [v])[1..] == q.list[1..] + [v];
    }
  }

  /** rdequeue undoes enqueue: the element just enqueued comes back, and the queue is as before. */
  lemma EnqueueRDequeueUndo(q: Queue, v: int)
    requires !q.ordered
    ensures Enqueue(q, v).Done? && RDequeue(Enqueue(q, v).value) == Taken(v, q, false)
  {
    assert (q.list + [v])[..|q.list|] == q.list;
  }

  /** peek shows what dequeue would take, and size counts what dequeue can take. */
  lemma PeekSizeAgreeWithDequeue(q: Queue)
    ensures Peek(q) == Dequeue(q).value
    ensures Size(q) > 0 ==> Size(Dequeue(q).queue) == Size(q) - 1
    ensures Size(q) == 0 ==> Dequeue(q).queue == q
  {
  }

  // ---------------------------------------------------------------------------
  // Ordered use

  /**
   The order an ordered queue keeps: enqueueInOrder keeps the list ascending,
   enqueueInOrderReverse descending.
   */
  datatype Direction = Ascending | Descending

  /** `a` strictly comes before `b` in the direction's order. */
  predicate Before(dir: Direction, a: int, b: int) {
    if dir == Ascending then a < b else a > b
  }

  predicate SortedIn(dir: Direction, s: seq<int>) {
    forall i, j :: 0 <= i < j < |s| ==> !Before(dir, s[j], s[i])
  }

  /**
   The binary search shared by ordered insertion and removal, over the window
   of `size` elements from `it`. Its invariant: `s[it]` comes before `v`, and
   `v` comes before the element just past the window (or the window reaches
   the end). It either meets an element equal to `v` (a hit) or narrows the
   window to one element and reports the gap after it, where `v` would go.
   */
  function Locate(dir: Direction, s: seq<int>, v: int, it: nat, size: nat): (r: (nat, bool))
    requires size >= 1 && it + size <= |s| && Before(dir, s[it], v) && Before(dir, v, s[|s| - 1])
    requires it + size == |s| || Before(dir, v, s[it + size])
    ensures it <= r.0 < it + size
    ensures r.1 ==> s[r.0] == v
    ensures !r.1 ==> r.0 + 1 < |s| && Before(dir, s[r.0], v) && Before(dir, v, s[r.0 + 1])
    decreases size
  {
    var half := size / 2;
    if half == 0 then (it, false)
    else
      var aux := it + half;
      if Before(dir, v, s[aux]) then Locate(dir, s, v, it, half)
      else if Before(dir, s[aux], v) then Locate(dir, s, v, aux, size - half)
      else (aux, true)
  }

  /**
   Ordered insertion: at the front when `v` does not come after the front, at
   the back when it does not come before the back, otherwise by binary search
   (before an equal element, or in the gap the search found).
   */
  function InsertSorted(dir: Direction, s: seq<int>, v: int): (r: seq<int>)
    ensures multiset(r) == multiset(s) + multiset{v}
    ensures exists p :: 0 <= p <= |s| && r == s[..p] + [v] + s[p..]
  {
    if |s| == 0 then
      assert [v] == s[..0] + [v] + s[0..];
      [v]
    else if !Before(dir, s[0], v) then
      assert [v] + s == s[..0] + [v] + s[0..];
      [v] + s
    else if !Before(dir, v, s[|s| - 1]) then
      assert s + [v] == s[..|s|] + [v] + s[|s|..];
      s + [v]
    else
      var (p, hit) := Locate(dir, s, v, 0, |s|);
      var at := if hit then p else p + 1;
      assert s == s[..at] + s[at..];
      s[..at] + [v] + s[at..]
  }

  /** Where `v` lies in a sorted list, everything before comes no later and everything after no earlier. */
  predicate Fits(dir: Direction, s: seq<int>, v: int, at: nat)
    requires at <= |s|
  {
    (forall i :: 0 <= i < at ==> !Before(dir, v, s[i])) &&
    (forall i :: at <= i < |s| ==> !Before(dir, s[i], v))
  }

  lemma FitsKeepsSorted(dir: Direction, s: seq<int>, v: int, at: nat)
    requires at <= |s| && SortedIn(dir, s) && Fits(dir, s, v, at)
    ensures SortedIn(dir, s[..at] + [v] + s[at..])
  {
    var r := s[..at] + [v] + s[at..];
    forall i, j | 0 <= i < j < |r|
      ensures !Before(dir, r[j], r[i])
    {
      if j < at || i > at {
      } else if i == at {
        assert r[j] == s[j - 1];
      } else if j == at {
        assert r[i] == s[i];
      } else {
        assert r[i] == s[i] && r[j] == s[j - 1];
      }
    }
  }

  /** In a sorted list, a place with no later neighbour before `v` and no earlier one after it fits `v`. */
  lemma FitsBetween(dir: Direction, s: seq<int>, v: int, at: nat)
    requires at <= |s| && SortedIn(dir, s)
    requires at == 0 || !Before(dir, v, s[at - 1])
    requires at == |s| || !Before(dir, s[at], v)
    ensures Fits(dir, s, v, at)
  {
    forall i | 0 <= i < at
      ensures !Before(dir, v, s[i])
    {
      assert !Before(dir, s[at - 1], s[i]) || i == at - 1;
    }
    forall i | at <= i < |s|
      ensures !Before(dir, s[i], v)
    {
      assert !Before(dir, s[i], s[at]) || i == at;
    }
  }

  /** Ordered insertion keeps a sorted list sorted. */
  lemma {:induction false} InsertSortedKeepsOrder(dir: Direction, s: seq<int>, v: int)
    requires SortedIn(dir, s)
    ensures SortedIn(dir, InsertSorted(dir, s, v))
  {
    if |s| == 0 {
    } else if !Before(dir, s[0], v) {
      FitsBetween(dir, s, v, 0);
      FitsKeepsSorted(dir, s, v, 0);
      assert s[..0] + [v] + s[0..] == [v] + s;
    } else if !Before(dir, v, s[|s| - 1]) {
      FitsBetween(dir, s, v, |s|);
      FitsKeepsSorted(dir, s, v, |s|);
      assert s[..|s|] + [v] + s[|s|..] == s + [v];
    } else {
      var (p, hit) := Locate(dir, s, v, 0, |s|);
      var at := if hit then p else p + 1;
      FitsBetween(dir, s, v, at);
      FitsKeepsSorted(dir, s, v, at);
    }
  }

  /**
   enqueueInOrder / enqueueInOrderReverse: a plain queue that already holds
   elements aborts; otherwise the queue becomes ordered and `v` is inserted in
   the direction's order.
   */
  function EnqueueOrdered(dir: Direction, q: Queue, v: int): (r: Outcome<Queue>)
    ensures r.Aborted? <==> !q.ordered && |q.list| != 0
    ensures r.Done? ==> r.value.ordered && multiset(r.value.list) == multiset(q.list) + multiset{v}
  {
    if !q.ordered && |q.list| != 0 then Aborted
    else Done(Queue(InsertSorted(dir, q.list, v), true))
  }

  /** enqueueInOrder: ascending insertion. */
  function EnqueueInOrder(q: Queue, v: int): (r: Outcome<Queue>)
    ensures r.Aborted? <==> !q.ordered && |q.list| != 0
    ensures r.Done? ==> r.value.ordered && multiset(r.value.list) == multiset(q.list) + multiset{v}
    ensures r.Done? && SortedIn(Ascending, q.list) ==> SortedIn(Ascending, r.value.list)
  {
    var r := EnqueueOrdered(Ascending, q, v);
    if r.Done? && SortedIn(Ascending, q.list) then
      InsertSortedKeepsOrder(Ascending, q.list, v);
      r
    else r
  }

  /** enqueueInOrderReverse: descending insertion. */
  function EnqueueInOrderReverse(q: Queue, v: int): (r: Outcome<Queue>)
    ensures r.Aborted? <==> !q.ordered && |q.list| != 0
    ensures r.Done? ==> r.value.ordered && multiset(r.value.list) == multiset(q.list) + multiset{v}
    ensures r.Done? && SortedIn(Descending, q.list) ==> SortedIn(Descending, r.value.list)
  {
    var r := EnqueueOrdered(Descending, q, v);
    if r.Done? && SortedIn(Descending, q.list) then
      InsertSortedKeepsOrder(Descending, q.list, v);
      r
    else r
  }

  /**
   removeInOrder as written: the front and back are checked first; otherwise
   the binary search runs, and when it narrows to one element without a hit
   the element after the window is erased and returned, whatever it is (the
   window's own element comes before `v`, so the source's equality test on it
   always fails).
   */
  function RemoveAsWritten(s: seq<int>, v: int): (r: (int, seq<int>))
    ensures |r.1| == |s| || |r.1| + 1 == |s|
  {
    if |s| == 0 then (Default, s)
    else if s[0] == v then (s[0], s[1..])
    else if v < s[0] then (Default, s)
    else if s[|s| - 1] == v then (s[|s| - 1], s[..|s| - 1])
    else if v > s[|s| - 1] then (Default, s)
    else
      var (p, hit) := Locate(Ascending, s, v, 0, |s|);
      var at := if hit then p else p + 1;
      (s[at], s[..at] + s[at + 1..])
  }

  /**
   removeInOrder as intended: when the binary search ends without a hit, `v`
   is not in the list, so `T()` is returned and nothing is erased.
   */
  function Remove(s: seq<int>, v: int): (r: (int, seq<int>))
    ensures r.1 == s || (r.0 == v && exists p :: 0 <= p < |s| && s[p] == v && r.1 == s[..p] + s[p + 1..])
    ensures v !in s ==> r == (Default, s)
  {
    if |s| == 0 then (Default, s)
    else if s[0] == v then
      assert s[1..] == s[..0] + s[0 + 1..];
      (s[0], s[1..])
    else if v < s[0] then (Default, s)
    else if s[|s| - 1] == v then
      assert s[..|s| - 1] == s[..|s| - 1] + s[|s| - 1 + 1..];
      (s[|s| - 1], s[..|s| - 1])
    else if v > s[|s| - 1] then (Default, s)
    else
      var (p, hit) := Locate(Ascending, s, v, 0, |s|);
      if hit then (s[p], s[..p] + s[p + 1..]) else (Default, s)
  }

  /** In a sorted list, the gap the search reports holds no copy of `v`. */
  lemma GapExcludes(s: seq<int>, v: int, p: nat)
    requires SortedIn(Ascending, s) && p + 1 < |s| && s[p] < v < s[p + 1]
    ensures v !in s
  {
    forall i | 0 <= i < |s|
      ensures s[i] != v
    {
      if i <= p {
        assert !Before(Ascending, s[p], s[i]) || i == p;
      } else {
        assert !Before(Ascending, s[i], s[p + 1]) || i == p + 1;
      }
    }
  }

  /** The multiset of a list with one element erased. */
  lemma MultisetDrop(s: seq<int>, p: nat)
    requires p < |s|
    ensures multiset(s[..p] + s[p + 1..]) == multiset(s) - multiset{s[p]}
  {
    assert s == s[..p] + [s[p]] + s[p + 1..];
  }

  /** On a sorted list holding `v` the binary search cannot end in a gap, so the removal hits. */
  lemma RemoveHits(s: seq<int>, v: int)
    requires SortedIn(Ascending, s) && v in s
    ensures Remove(s, v).0 == v && |Remove(s, v).1| + 1 == |s|
  {
    if s[0] != v && !(v < s[0]) && s[|s| - 1] != v && !(v > s[|s| - 1]) {
      var (p, hit) := Locate(Ascending, s, v, 0, |s|);
      if !hit {
        GapExcludes(s, v, p);
      }
    }
  }

  /**
   On a sorted list the intended removal finds `v` exactly when it is there:
   it returns `v` and erases one copy of it; otherwise it returns `T()` and
   leaves the list alone.
   */
  lemma RemoveFindsPresent(s: seq<int>, v: int)
    requires SortedIn(Ascending, s)
    ensures v in s ==> Remove(s, v).0 == v && multiset(Remove(s, v).1) == multiset(s) - multiset{v}
    ensures v !in s ==> Remove(s, v) == (Default, s)
  {
    if v in s {
      RemoveHits(s, v);
      var p :| 0 <= p < |s| && s[p] == v && Remove(s, v).1 == s[..p] + s[p + 1..];
      MultisetDrop(s, p);
    }
  }

  /** The as-written removal agrees with the intended one whenever `v` is in a sorted list. */
  lemma RemoveAsWrittenAgreesWhenPresent(s: seq<int>, v: int)
    requires SortedIn(Ascending, s) && v in s
    ensures RemoveAsWritten(s, v) == Remove(s, v)
  {
    if 0 < |s| && s[0] != v && !(v < s[0]) && s[|s| - 1] != v && !(v > s[|s| - 1]) {
      var (p, hit) := Locate(Ascending, s, v, 0, |s|);
      if !hit {
        GapExcludes(s, v, p);
      }
    }
  }

  /**
   As written, removing a value that is absent but lies between the front and
   the back erases and returns another element: removing 2 from [1, 3] takes
   out 3, where the intended removal leaves [1, 3] as it is.
   */
  lemma RemoveAsWrittenErasesNeighbour()
    ensures RemoveAsWritten([1, 3], 2) == (3, [1])
    ensures Remove([1, 3], 2) == (Default, [1, 3])
  {
    assert Locate(Ascending, [1, 3], 2, 0, 1) == (0, false);
    assert Locate(Ascending, [1, 3], 2, 0, 2) == (0, false);
    assert [1, 3][..1] + [1, 3][2..] == [1];
  }

  /** Removing what was just inserted gives back the sorted list and the value. */
  lemma {:induction false} InsertThenRemove(s: seq<int>, v: int)
    requires SortedIn(Ascending, s)
    ensures Remove(InsertSorted(Ascending, s, v), v) == (v, s)
  {
    var t := InsertSorted(Ascending, s, v);
    InsertSortedKeepsOrder(Ascending, s, v);
    assert v in multiset(t);
    RemoveFindsPresent(t, v);
    var u := Remove(t, v).1;
    assert multiset(u) == multiset(s);
    RemoveKeepsOrder(t, v);
    Keys.SortedPermutationsOfIntsAreEqual(u, s);
  }

  /** Erasing one element keeps a list sorted. */
  lemma DropKeepsSorted(dir: Direction, s: seq<int>, p: nat)
    requires SortedIn(dir, s) && p < |s|
    ensures SortedIn(dir, s[..p] + s[p + 1..])
  {
    var r := s[..p] + s[p + 1..];
    forall i, j | 0 <= i < j < |r|
      ensures !Before(dir, r[j], r[i])
    {
      var i' := if i < p then i else i + 1;
      var j' := if j < p then j else j + 1;
      assert r[i] == s[i'] && r[j] == s[j'];
    }
  }

  /** Taking the front or the back element keeps a list sorted. */
  lemma EndsKeepSorted(dir: Direction, s: seq<int>)
    requires SortedIn(dir, s) && |s| > 0
    ensures SortedIn(dir, s[1..]) && SortedIn(dir, s[..|s| - 1])
  {
    assert forall i, j :: 0 <= i < j < |s| - 1 ==> s[1..][i] == s[i + 1] && s[1..][j] == s[j + 1];
  }

  /** The intended removal keeps a sorted list sorted (in the integer sense the key order uses too). */
  lemma RemoveKeepsOrder(s: seq<int>, v: int)
    requires SortedIn(Ascending, s)
    ensures SortedIn(Ascending, Remove(s, v).1)
    ensures Keys.SortedBy(x => x, Remove(s, v).1)
    ensures Keys.SortedBy(x => x, s)
  {
    if Remove(s, v).1 != s {
      var p :| 0 <= p < |s| && s[p] == v && Remove(s, v).1 == s[..p] + s[p + 1..];
      DropKeepsSorted(Ascending, s, p);
    }
  }

  /** removeInOrder on a queue: on an empty queue `T()` and no change. */
  function RemoveInOrder(q: Queue, v: int): (r: (int, Queue))
    ensures r.1.ordered == q.ordered
    ensures v !in q.list ==> r == (Default, q)
    ensures SortedIn(Ascending, q.list) && v in q.list ==>
      r.0 == v && multiset(r.1.list) == multiset(q.list) - multiset{v}
  {
    var (x, s) := Remove(q.list, v);
    if SortedIn(Ascending, q.list) then
      RemoveFindsPresent(q.list, v);
      (x, q.(list := s))
    else (x, q.(list := s))
  }

  /** removeInOrder on a queue as written. */
  function RemoveInOrderAsWritten(q: Queue, v: int): (r: (int, Queue))
    ensures r.1.ordered == q.ordered
    ensures SortedIn(Ascending, q.list) && v in q.list ==> r == RemoveInOrder(q, v)
  {
    var (x, s) := RemoveAsWritten(q.list, v);
    if SortedIn(Ascending, q.list) && v in q.list then
      RemoveAsWrittenAgreesWhenPresent(q.list, v);
      (x, q.(list := s))
    else (x, q.(list := s))
  }

  /** An ordered queue used only in one direction stays sorted in it. */
  predicate Valid(dir: Direction, q: Queue) {
    q.ordered ==> SortedIn(dir, q.list)
  }

  /**
   Every operation keeps a queue valid: plain enqueues never touch an ordered
   queue, ordered insertion makes or keeps it sorted, and dequeues and
   removals only take elements out.
   */
  lemma OperationsKeepValid(dir: Direction, q: Queue, v: int)
    requires Valid(dir, q)
    ensures Enqueue(q, v).Done? ==> Valid(dir, Enqueue(q, v).value)
    ensures EnqueueOrdered(dir, q, v).Done? ==> Valid(dir, EnqueueOrdered(dir, q, v).value)
    ensures Valid(dir, Dequeue(q).queue) && Valid(dir, RDequeue(q).queue)
    ensures dir == Ascending ==> Valid(dir, RemoveInOrder(q, v).1)
  {
    if EnqueueOrdered(dir, q, v).Done? {
      InsertSortedKeepsOrder(dir, q.list, v);
    }
    if |q.list| > 0 && q.ordered {
      EndsKeepSorted(dir, q.list);
    }
    if dir == Ascending && q.ordered {
      RemoveKeepsOrder(q.list, v);
    }
  }
}

/**
 The object pool (ObjectPool): objects handed out by `create` are recorded as
 in use, keyed by their address; `release` moves them to a FIFO queue of
 available objects that later `create` calls reuse before allocating. Once
 the pool is destroyed, every call aborts. Addresses are modelled as natural
 numbers, and the allocator's `new T()` as an address passed in.
 */
module Pools {
  import opened Results

  /** A pooled object: its address and whether construction and destruction are skipped. */
  datatype Element = Element(ignorePlacement: bool, ptr: nat)

  datatype Pool = Pool(available: seq<Element>, inUse: map<nat, Element>, released: bool)

  /** Every address the pool owns, whether handed out or waiting for reuse. */
  function Tracked(p: Pool): set<nat> {
    (set i | 0 <= i < |p.available| :: p.available[i].ptr) + p.inUse.Keys
  }

  /**
   The pool's bookkeeping is consistent: no address waits twice, none both
   waits and is in use, and every in-use entry is stored under its own address.
   */
  predicate Valid(p: Pool) {
    (forall i, j :: 0 <= i < j < |p.available| ==> p.available[i].ptr != p.available[j].ptr) &&
    (forall i :: 0 <= i < |p.available| ==> p.available[i].ptr !in p.inUse) &&
    (forall k :: k in p.inUse ==> p.inUse[k].ptr == k)
  }

  /** The constructor: nothing owned, not released. */
  function NewPool(): (p: Pool)
    ensures Valid(p) && Tracked(p) == {} && !p.released
  {
    Pool([], map[], false)
  }

  /**
   create: aborts on a destroyed pool. Otherwise the oldest available object
   is reused when there is one (and re-flagged with `ignorePlacement`), and a
   new one at `alloc` is made when there is none; either way the object is
   recorded as in use and its address returned.
   */
  function Create(p: Pool, ignorePlacement: bool, alloc: nat): (r: Outcome<(Pool, nat)>)
    requires alloc !in Tracked(p)
    ensures r.Aborted? <==> p.released
    ensures r.Done? ==> r.value.0.inUse == p.inUse[r.value.1 := Element(ignorePlacement, r.value.1)]
    ensures r.Done? && p.available != [] ==> r.value.1 == p.available[0].ptr && r.value.0.available == p.available[1..]
    ensures r.Done? && p.available == [] ==> r.value.1 == alloc && Tracked(r.value.0) == Tracked(p) + {alloc}
  {
    if p.released then Aborted
    else if |p.available| > 0 then
      var e := p.available[0].(ignorePlacement := ignorePlacement);
      Done((Pool(p.available[1..], p.inUse[e.ptr := e], false), e.ptr))
    else
      var e := Element(ignorePlacement, alloc);
      Done((Pool(p.available, p.inUse[alloc := e], false), alloc))
  }

  /**
   release: aborts on a destroyed pool and on an address that is not in use
   (never created, or already released); otherwise the object leaves the
   in-use map and joins the back of the available queue.
   */
  function Release(p: Pool, ptr: nat): (r: Outcome<Pool>)
    ensures r.Aborted? <==> p.released || ptr !in p.inUse
    ensures r.Done? ==> r.value.inUse == p.inUse - {ptr} && r.value.available == p.available + [p.inUse[ptr]]
  {
    if p.released || ptr !in p.inUse then Aborted
    else Done(Pool(p.available + [p.inUse[ptr]], p.inUse - {ptr}, false))
  }

  /**
   The destructor: every owned object is deleted (the available ones after
   being constructed again when they were destroyed on release), nothing is
   left, and the pool is marked released. Returns the deleted addresses.
   */
  function Destroy(p: Pool): (r: (Pool, set<nat>))
    ensures r.1 == Tracked(p) && Tracked(r.0) == {} && r.0.released
  {
    (Pool([], map[], true), Tracked(p))
  }

  lemma TrackedDrop(p: Pool)
    requires |p.available| > 0
    ensures Tracked(p) == Tracked(p.(available := p.available[1..])) + {p.available[0].ptr}
  {
    var s := p.available;
    assert forall i :: 1 <= i < |s| ==> s[1..][i - 1] == s[i];
    assert forall i :: 0 <= i < |s| - 1 ==> s[1..][i] == s[i + 1];
  }

  lemma TrackedSnoc(p: Pool, e: Element)
    ensures Tracked(p.(available := p.available + [e])) == Tracked(p) + {e.ptr}
  {
    var s := p.available + [e];
    assert forall i :: 0 <= i < |p.available| ==> s[i] == p.available[i];
    assert s[|p.available|] == e;
  }

  /**
   create keeps the pool consistent, hands out an address that was not in use,
   and owns exactly what it owned before plus, when nothing was available,
   the new allocation.
   */
  lemma CreateKeepsValid(p: Pool, ignorePlacement: bool, alloc: nat)
    requires Valid(p) && !p.released && alloc !in Tracked(p)
    ensures Create(p, ignorePlacement, alloc).Done?
    ensures Create(p, ignorePlacement, alloc).value.1 !in p.inUse
    ensures Valid(Create(p, ignorePlacement, alloc).value.0)
    ensures Tracked(Create(p, ignorePlacement, alloc).value.0) ==
      Tracked(p) + (if p.available == [] then {alloc} else {})
  {
    if |p.available| > 0 {
      TrackedDrop(p);
      var q := Create(p, ignorePlacement, alloc).value.0;
      var s := p.available;
      assert forall i :: 0 <= i < |q.available| ==> q.available[i] == s[i + 1];
      assert Tracked(q) == Tracked(p.(available := s[1..])) + {s[0].ptr};
    }
  }

  /** release keeps the pool consistent and owns exactly what it owned before. */
  lemma ReleaseKeepsValid(p: Pool, ptr: nat)
    requires Valid(p) && !p.released && ptr in p.inUse
    ensures Release(p, ptr).Done?
    ensures Valid(Release(p, ptr).value)
    ensures Tracked(Release(p, ptr).value) == Tracked(p)
  {
    var q := Release(p, ptr).value;
    TrackedSnoc(p.(inUse := p.inUse - {ptr}), p.inUse[ptr]);
    assert q == p.(inUse := p.inUse - {ptr}).(available := p.available + [p.inUse[ptr]]);
  }

  /** Releasing an object twice aborts the second time. */
  lemma DoubleReleaseAborts(p: Pool, ptr: nat)
    requires Release(p, ptr).Done?
    ensures Release(Release(p, ptr).value, ptr).Aborted?
  {
  }

  /**
   An object released into a pool with nothing waiting is the next one
   handed out again: create after release returns the same address and
   leaves the pool owning the same objects.
   */
  lemma ReleaseThenCreateReuses(p: Pool, ptr: nat, ignorePlacement: bool, alloc: nat)
    requires Valid(p) && !p.released && ptr in p.inUse && p.available == []
    requires alloc !in Tracked(p)
    ensures Release(p, ptr).Done?
    ensures alloc !in Tracked(Release(p, ptr).value)
    ensures Create(Release(p, ptr).value, ignorePlacement, alloc).Done?
    ensures Create(Release(p, ptr).value, ignorePlacement, alloc).value.1 == ptr
    ensures Tracked(Create(Release(p, ptr).value, ignorePlacement, alloc).value.0) == Tracked(p)
  {
    ReleaseKeepsValid(p, ptr);
    CreateKeepsValid(Release(p, ptr).value, ignorePlacement, alloc);
  }
}

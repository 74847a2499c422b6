/**
 The grow-only byte buffer (ObjectBuffer) that holds the sort engine's
 auxiliary storage. `size` is the number of bytes in use, `allocSize` the
 number allocated; the allocation only ever grows, except through `free`.
 */
module ObjectBuffers {
  import opened Results

  /** A byte. */
  newtype uint8 = x: int | 0 <= x < 0x100

  /** The default alignment of an allocation, in bytes. */
  const DefaultAlign: nat := 32

  /**
   What the `data` member points at: nothing (NULL), storage whose bytes are
   known, or an indeterminate pointer (a member that was never assigned).
   */
  datatype Data = Null | Bytes(bytes: seq<uint8>) | Indeterminate

  datatype ObjectBuffer = ObjectBuffer(data: Data, size: nat, allocSize: nat, align: nat, external: bool)

  /** The bytes in use, when `data` can be read for `size` bytes. */
  function Contents(b: ObjectBuffer): (r: Option<seq<uint8>>)
    ensures r.Some? ==> |r.value| == b.size
  {
    if b.size == 0 then Some([])
    else if b.data.Bytes? && b.size <= |b.data.bytes| then Some(b.data.bytes[..b.size])
    else None
  }

  /**
   An owned buffer: the allocation is exactly `allocSize` bytes (none when it
   is 0), and the bytes in use lie inside it.
   */
  predicate Owned(b: ObjectBuffer) {
    !b.external && b.size <= b.allocSize &&
    (if b.allocSize == 0 then b.data == Null else b.data.Bytes? && |b.data.bytes| == b.allocSize)
  }

  /** The default constructor: no storage, nothing in use, 32-byte alignment, owned. */
  function Empty(): (b: ObjectBuffer)
    ensures Owned(b) && b.size == 0 && Contents(b) == Some([])
  {
    ObjectBuffer(Null, 0, 0, DefaultAlign, false)
  }

  /**
   The external-buffer constructor as written: the assignment `data = data`
   assigns the parameter to itself, so the member is never set.
   */
  function FromExternalAsWritten(bytes: seq<uint8>, size: nat, align: nat): (b: ObjectBuffer)
    ensures b.size == size && b.allocSize == 0 && b.external
  {
    ObjectBuffer(Indeterminate, size, 0, align, true)
  }

  /** The external-buffer constructor as intended: `data` points at the caller's bytes. */
  function FromExternal(bytes: seq<uint8>, size: nat, align: nat): (b: ObjectBuffer)
    ensures b.size == size && b.allocSize == 0 && b.external
    ensures size <= |bytes| ==> Contents(b) == Some(bytes[..size])
  {
    ObjectBuffer(Bytes(bytes), size, 0, align, true)
  }

  /**
   As written, a buffer built over the caller's bytes cannot be read: for
   every non-empty size its contents are unknown, where the intended
   constructor gives back the caller's bytes.
   */
  lemma ExternalAsWrittenUnreadable(bytes: seq<uint8>, size: nat, align: nat)
    requires 0 < size <= |bytes|
    ensures Contents(FromExternalAsWritten(bytes, size, align)).None?
    ensures Contents(FromExternal(bytes, size, align)) == Some(bytes[..size])
  {
  }

  /**
   free: the owned storage is released; afterwards there is no storage,
   nothing is in use and the buffer counts as owned. The alignment is kept.
   */
  function Free(b: ObjectBuffer): (r: ObjectBuffer)
    ensures Owned(r) && r.size == 0 && r.allocSize == 0 && r.data == Null
    ensures r.align == b.align
  {
    ObjectBuffer(Null, 0, 0, b.align, false)
  }

  /**
   setSize(n): nothing happens when n is the current size. Growing past the
   allocation frees it and allocates exactly n bytes (whose contents `alloc`
   are whatever the allocator returns); otherwise the allocation is kept and
   only `size` changes.
   */
  function SetSize(b: ObjectBuffer, n: nat, align: nat, alloc: seq<uint8>): (r: ObjectBuffer)
    requires |alloc| == n
    ensures r.size == n
    ensures n == b.size ==> r == b
    ensures n != b.size && n > b.allocSize ==> r.allocSize == n && r.align == align && !r.external
    ensures n != b.size && n <= b.allocSize ==> r.allocSize == b.allocSize && r.data == b.data && r.external == b.external
  {
    if n == b.size then b
    else if n > b.allocSize then ObjectBuffer(Bytes(alloc), n, n, align, false)
    else b.(size := n)
  }

  /** setSize keeps an owned buffer owned, so the bytes in use always lie inside the allocation. */
  lemma SetSizeKeepsOwned(b: ObjectBuffer, n: nat, align: nat, alloc: seq<uint8>)
    requires Owned(b) && |alloc| == n
    ensures Owned(SetSize(b, n, align, alloc))
    ensures SetSize(b, n, align, alloc).allocSize == if n > b.allocSize then n else b.allocSize
  {
  }

  /** Setting the same size twice is the same as setting it once. */
  lemma SetSizeIdempotent(b: ObjectBuffer, n: nat, align: nat, alloc: seq<uint8>, alloc2: seq<uint8>)
    requires |alloc| == n && |alloc2| == n
    ensures SetSize(SetSize(b, n, align, alloc), n, align, alloc2) == SetSize(b, n, align, alloc)
  {
  }

  /** Shrinking an owned buffer keeps its storage, so growing back to the old size reuses it. */
  lemma ShrinkThenRegrow(b: ObjectBuffer, n: nat, align: nat, alloc: seq<uint8>, alloc2: seq<uint8>)
    requires Owned(b) && n < b.size && |alloc| == n && |alloc2| == b.size
    ensures SetSize(SetSize(b, n, align, alloc), b.size, align, alloc2) == b
  {
  }

  /**
   copy(src): size the buffer like `src` (with `src`'s alignment) and copy the
   first `size` bytes of `src` into it. `None` when those bytes would be written
   through a pointer that does not hold them (an external buffer whose `data`
   is not usable), which the source does not guard against.
   */
  function Copy(b: ObjectBuffer, src: ObjectBuffer, alloc: seq<uint8>): (r: Option<ObjectBuffer>)
    requires Contents(src).Some? && |alloc| == src.size
    ensures r.Some? ==> r.value.size == src.size
  {
    var s := SetSize(b, src.size, src.align, alloc);
    if src.size == 0 then Some(s)
    else if s.data.Bytes? && src.size <= |s.data.bytes| then
      Some(s.(data := Bytes(Contents(src).value + s.data.bytes[src.size..])))
    else None
  }

  /**
   After a copy from a readable buffer, the first `size` bytes equal the
   source's; an owned buffer always takes the copy and stays owned.
   */
  lemma CopyCopies(b: ObjectBuffer, src: ObjectBuffer, alloc: seq<uint8>)
    requires Contents(src).Some? && |alloc| == src.size
    ensures Copy(b, src, alloc).Some? ==> Contents(Copy(b, src, alloc).value) == Contents(src)
    ensures Owned(b) ==> Copy(b, src, alloc).Some? && Owned(Copy(b, src, alloc).value)
  {
    var s := SetSize(b, src.size, src.align, alloc);
    if Owned(b) {
      SetSizeKeepsOwned(b, src.size, src.align, alloc);
    }
    if src.size != 0 && s.data.Bytes? && src.size <= |s.data.bytes| {
      assert (Contents(src).value + s.data.bytes[src.size..])[..src.size] == Contents(src).value;
    }
  }
}
